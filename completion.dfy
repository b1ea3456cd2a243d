/**
 * `donechore`: the completion transition. When someone other than the
 * assignee completes a chore, that person is credited one smiley for it and
 * the assignee stays. When the assignee completes it, the source enters a
 * `while True` loop that has no exit. Each pass looks at the successor of the
 * completer's id in the chore's rotation. It hands that candidate the chore if
 * the candidate has no smiley, and takes one smiley from the candidate
 * otherwise. The candidate never moves, so the passes settle into a state
 * that no later pass changes, and the command never saves the registry or
 * replies. DoneChore models the command as written, observing a bounded
 * number of passes. CompleteChore is the repaired transition: it advances
 * through the rotation and provably stops.
 */
module Completion {
  import opened Types
  import opened Calendar
  import opened Ledger
  import opened Registry
  import Rotation

  datatype DoneOutcome =
    | NoSuchChore
      /** The command finished and saved both stores. */
    | Saved(chores: Registry, ledger: Ledger)
      /**
       * The command is still inside its loop. `ledger` is what `remove_smiley`
       * has saved so far; `chore` is the registry entry held in memory and
       * never saved.
       */
    | StillLooping(chore: Chore, ledger: Ledger)

  /** The completion record that both branches write. */
  function Recorded(chore: Chore, author: UserId, today: Date): Chore {
    chore.(lastDoneBy := Some(author), lastDone := Some(today))
  }

  // ---------------------------------------------------------------------
  // The loop as written

  /** The candidate every pass asks about: the successor of the completer's own id. */
  function Candidate(chore: Chore, author: UserId): UserId
    requires chore.rotation != []
  {
    Rotation.NextInRotation(chore.rotation, author).value
  }

  /**
   * One pass of the loop body. It changes the chore's assignee and nothing
   * else, and only ever to the candidate. It keeps the ledger non-negative.
   */
  function LoopPass(chore: Chore, ledger: Ledger, name: string, author: UserId): (r: (Chore, Ledger))
    requires chore.rotation != []
    ensures r.0 == chore.(assignedTo := r.0.assignedTo)
    ensures r.0.assignedTo == chore.assignedTo || r.0.assignedTo == Candidate(chore, author)
    ensures NonNegative(ledger) ==> NonNegative(r.1)
  {
    var candidate := Candidate(chore, author);
    if Smileys(ledger, candidate, name) == 0 then (chore.(assignedTo := candidate), ledger)
    else (chore, Consumed(ledger, candidate, name))
  }

  /**
   * `passes` passes of the loop body. However many passes run, the held
   * chore differs from the original at most in its assignee: no pass
   * records the completion.
   */
  function Spin(chore: Chore, ledger: Ledger, name: string, author: UserId, passes: nat): (r: (Chore, Ledger))
    requires chore.rotation != []
    ensures r.0 == chore.(assignedTo := r.0.assignedTo)
    ensures NonNegative(ledger) ==> NonNegative(r.1)
    decreases passes
  {
    if passes == 0 then (chore, ledger)
    else
      var (c, l) := LoopPass(chore, ledger, name, author);
      Spin(c, l, name, author, passes - 1)
  }

  /**
   * One pass either hands the chore to the candidate, when the candidate has
   * no smiley, or takes one smiley from the candidate and leaves the chore
   * as it was. No other count changes.
   */
  lemma LoopPassEffect(chore: Chore, ledger: Ledger, name: string, author: UserId)
    requires chore.rotation != [] && NonNegative(ledger)
    ensures
      var (c, l) := LoopPass(chore, ledger, name, author);
      var candidate := Candidate(chore, author);
      && candidate in chore.rotation
      && c.rotation == chore.rotation
      && (Smileys(ledger, candidate, name) == 0 ==> c == chore.(assignedTo := candidate) && l == ledger)
      && (Smileys(ledger, candidate, name) != 0 ==>
            c == chore && Smileys(l, candidate, name) == Smileys(ledger, candidate, name) - 1)
      && (forall u, n :: u != candidate || n != name ==> Smileys(l, u, n) == Smileys(ledger, u, n))
  {
  }

  /** The ledger once the candidate's smileys for `name` have been used up. */
  function Drained(ledger: Ledger, user: UserId, name: string): Ledger {
    if Smileys(ledger, user, name) == 0 then ledger else ledger[user := ledger[user][name := 0]]
  }

  /**
   * After more passes than the candidate has smileys, the loop has handed
   * the chore to the candidate and used up all of the candidate's smileys.
   * The candidate is the same on every pass.
   */
  lemma {:induction false} SpinSettles(chore: Chore, ledger: Ledger, name: string, author: UserId, passes: nat)
    requires chore.rotation != [] && NonNegative(ledger)
    requires Smileys(ledger, Candidate(chore, author), name) < passes
    ensures Spin(chore, ledger, name, author, passes)
            == (chore.(assignedTo := Candidate(chore, author)), Drained(ledger, Candidate(chore, author), name))
    decreases passes
  {
    var candidate := Candidate(chore, author);
    var n := Smileys(ledger, candidate, name);
    if n == 0 {
      SettledSpinIsIdle(chore.(assignedTo := candidate), ledger, name, author, passes - 1);
    } else {
      var consumed := Consumed(ledger, candidate, name);
      SpinSettles(chore, consumed, name, author, passes - 1);
      var entries := ledger[candidate];
      assert consumed == ledger[candidate := entries[name := n - 1]];
      assert entries[name := n - 1][name := 0] == entries[name := 0];
      assert Drained(consumed, candidate, name) == ledger[candidate := entries[name := 0]];
    }
  }

  /**
   * Once the candidate holds the chore and has no smiley left, further
   * passes change nothing. The loop has no exit, so the command spins
   * forever in this state.
   */
  lemma {:induction false} SettledSpinIsIdle(chore: Chore, ledger: Ledger, name: string, author: UserId, passes: nat)
    requires chore.rotation != []
    requires chore.assignedTo == Candidate(chore, author) && Smileys(ledger, chore.assignedTo, name) == 0
    ensures Spin(chore, ledger, name, author, passes) == (chore, ledger)
    decreases passes
  {
    if passes > 0 {
      assert LoopPass(chore, ledger, name, author) == (chore, ledger);
      SettledSpinIsIdle(chore, ledger, name, author, passes - 1);
    }
  }

  /**
   * `donechore` as written, with its loop observed for `fuel` passes. Only a
   * completion by someone other than the assignee reaches the save: it
   * credits that person and records the completion. The assignee's
   * completion is still looping, and its held chore records nothing.
   */
  function DoneAsWritten(chores: Registry, ledger: Ledger, name: string, author: UserId,
                         today: Date, fuel: nat): (outcome: DoneOutcome)
    requires WellFormed(chores)
    ensures outcome.NoSuchChore? <==> name !in chores
    ensures outcome.StillLooping? <==> name in chores && author == chores[name].assignedTo
    ensures outcome.StillLooping? ==>
      && outcome.chore == chores[name].(assignedTo := outcome.chore.assignedTo)
      && (outcome.chore, outcome.ledger) == Spin(chores[name], ledger, name, author, fuel)
    ensures outcome.Saved? ==>
      && WellFormed(outcome.chores)
      && outcome.chores.Keys == chores.Keys
      && (forall n :: n in chores && n != name ==> outcome.chores[n] == chores[n])
      && outcome.chores[name] == chores[name].(lastDone := Some(today), lastDoneBy := Some(author))
      && Smileys(outcome.ledger, author, name) == Smileys(ledger, author, name) + 1
      && (forall u, n :: u != author || n != name ==> Smileys(outcome.ledger, u, n) == Smileys(ledger, u, n))
  {
    if name !in chores then NoSuchChore
    else if author == chores[name].assignedTo then
      var (c, l) := Spin(chores[name], ledger, name, author, fuel);
      StillLooping(c, l)
    else
      Saved(chores[name := Recorded(chores[name], author, today)], Awarded(ledger, author, name))
  }

  /**
   * `donechore` as written. The `while True` of the source runs here for at
   * most `fuel` passes; since it has no exit, the assignee branch always
   * ends in StillLooping, whatever `fuel` is.
   */
  method DoneChore(chores: Registry, ledger: Ledger, name: string, author: UserId,
                   today: Date, fuel: nat) returns (outcome: DoneOutcome)
    requires WellFormed(chores)
    ensures outcome == DoneAsWritten(chores, ledger, name, author, today, fuel)
    ensures name in chores && author != chores[name].assignedTo ==>
      && outcome.Saved?
      && outcome.chores[name].assignedTo == chores[name].assignedTo
      && Smileys(outcome.ledger, author, name) == Smileys(ledger, author, name) + 1
    ensures name in chores && author == chores[name].assignedTo ==> outcome.StillLooping?
  {
    if name !in chores {
      return NoSuchChore;
    }
    var chore := chores[name];
    var smileys := ledger;
    if author == chore.assignedTo {
      var pass := 0;
      while pass < fuel
        invariant pass <= fuel
        invariant chore.rotation == chores[name].rotation
        invariant Spin(chores[name], ledger, name, author, fuel) == Spin(chore, smileys, name, author, fuel - pass)
      {
        var candidate := Rotation.NextInRotation(chore.rotation, author).value;
        if Smileys(smileys, candidate, name) == 0 {
          chore := chore.(assignedTo := candidate);
        } else {
          smileys := RemoveSmiley(smileys, candidate, name);
        }
        pass := pass + 1;
      }
      return StillLooping(chore, smileys);
    } else {
      smileys := AddSmiley(smileys, author, name);
    }
    chore := chore.(lastDoneBy := Some(author));
    chore := chore.(lastDone := Some(today));
    return Saved(chores[name := chore], smileys);
  }

  // ---------------------------------------------------------------------
  // The repaired transition

  /** The smileys for `name` held across the rotation, counting each position. */
  function TotalCredit(ledger: Ledger, rotation: seq<UserId>, name: string): nat {
    if rotation == [] then 0
    else Max(Smileys(ledger, rotation[0], name), 0) + TotalCredit(ledger, rotation[1..], name)
  }

  /** Taking a smiley from a rotation member lowers the rotation's total credit. */
  lemma {:induction false} ConsumeLowersTotal(ledger: Ledger, rotation: seq<UserId>, user: UserId, name: string)
    requires 0 < Smileys(ledger, user, name)
    ensures TotalCredit(Consumed(ledger, user, name), rotation, name) <= TotalCredit(ledger, rotation, name)
    ensures user in rotation ==>
      TotalCredit(Consumed(ledger, user, name), rotation, name) < TotalCredit(ledger, rotation, name)
  {
    if rotation != [] {
      ConsumeLowersTotal(ledger, rotation[1..], user, name);
      assert rotation == [rotation[0]] + rotation[1..];
    }
  }

  /**
   * The skip rule: starting at `candidate`, each member who holds a smiley
   * for `name` gives one up and is passed over. The first member without one
   * becomes the assignee. Returns the assignee and the ledger afterwards.
   */
  function Advance(rotation: seq<UserId>, candidate: UserId, ledger: Ledger, name: string): (r: (UserId, Ledger))
    requires candidate in rotation && NonNegative(ledger)
    ensures r.0 in rotation && Smileys(r.1, r.0, name) == 0 && NonNegative(r.1)
    ensures forall u, n :: Smileys(r.1, u, n) <= Smileys(ledger, u, n)
    ensures forall u, n :: n != name || u !in rotation ==> Smileys(r.1, u, n) == Smileys(ledger, u, n)
    ensures Smileys(ledger, candidate, name) == 0 ==> r == (candidate, ledger)
    decreases TotalCredit(ledger, rotation, name)
  {
    if Smileys(ledger, candidate, name) == 0 then (candidate, ledger)
    else
      ConsumeLowersTotal(ledger, rotation, candidate, name);
      Advance(rotation, Rotation.NextInRotation(rotation, candidate).value, Consumed(ledger, candidate, name), name)
  }

  /**
   * The completion transition with the loop repaired. The assignee's
   * completion hands the chore to the next member in the rotation who holds
   * no smiley, after each skipped member gives one up. Anyone else's
   * completion credits them. Both branches record who completed the chore
   * and when.
   */
  function Completed(chores: Registry, ledger: Ledger, name: string, author: UserId, today: Date): (outcome: DoneOutcome)
    requires WellFormed(chores) && NonNegative(ledger)
    ensures outcome.NoSuchChore? <==> name !in chores
    ensures outcome.StillLooping? == false
    ensures outcome.Saved? ==>
      && WellFormed(outcome.chores) && NonNegative(outcome.ledger)
      && outcome.chores.Keys == chores.Keys
      && (forall n :: n in chores && n != name ==> outcome.chores[n] == chores[n])
      && outcome.chores[name].lastDone == Some(today)
      && outcome.chores[name].lastDoneBy == Some(author)
      && outcome.chores[name].rotation == chores[name].rotation
      && outcome.chores[name].frequencyDays == chores[name].frequencyDays
    ensures outcome.Saved? && author == chores[name].assignedTo ==>
      Smileys(outcome.ledger, outcome.chores[name].assignedTo, name) == 0
      && (forall u, n :: Smileys(outcome.ledger, u, n) <= Smileys(ledger, u, n))
      && (outcome.chores[name].assignedTo, outcome.ledger)
         == Advance(chores[name].rotation, Candidate(chores[name], author), ledger, name)
    ensures name in chores && author == chores[name].assignedTo
            && Smileys(ledger, Candidate(chores[name], author), name) == 0 ==>
      outcome.chores[name].assignedTo == Candidate(chores[name], author) && outcome.ledger == ledger
    ensures outcome.Saved? && author != chores[name].assignedTo ==>
      outcome.chores[name].assignedTo == chores[name].assignedTo
      && outcome.ledger == Awarded(ledger, author, name)
  {
    if name !in chores then NoSuchChore
    else
      var chore := chores[name];
      if author == chore.assignedTo then
        var (next, l) := Advance(chore.rotation, Candidate(chore, author), ledger, name);
        Saved(chores[name := Recorded(chore.(assignedTo := next), author, today)], l)
      else
        Saved(chores[name := Recorded(chore, author, today)], Awarded(ledger, author, name))
  }

  // ---------------------------------------------------------------------
  // Going round a rotation without repeated members

  /** The position `j` steps after position `p` in a rotation of length `n`, wrapping once. */
  function Pos(p: nat, j: nat, n: nat): (i: nat)
    requires p < n && j <= n
    ensures i < n
  {
    if p + j < n then p + j else p + j - n
  }

  /** The member `j` steps after position `p`. */
  function Walk(rotation: seq<UserId>, p: nat, j: nat): UserId
    requires p < |rotation| && j <= |rotation|
  {
    rotation[Pos(p, j, |rotation|)]
  }

  /** The members met in the first `k` steps from position `p`, in order. */
  function Passed(rotation: seq<UserId>, p: nat, k: nat): (s: seq<UserId>)
    requires p < |rotation| && k <= |rotation|
    ensures |s| == k
    ensures forall u :: u in s ==> u in rotation
  {
    if k == 0 then [] else Passed(rotation, p, k - 1) + [Walk(rotation, p, k - 1)]
  }

  /** The ledger after each of `users`, in order, gives up one smiley for `name`. */
  function ConsumedAll(ledger: Ledger, users: seq<UserId>, name: string): (r: Ledger)
    ensures NonNegative(ledger) ==> NonNegative(r)
  {
    if users == [] then ledger
    else Consumed(ConsumedAll(ledger, users[..|users| - 1], name), users[|users| - 1], name)
  }

  /** Each of several distinct members loses one smiley (down to zero); no other count changes. */
  lemma {:induction false} ConsumedAllCounts(ledger: Ledger, users: seq<UserId>, name: string, u: UserId, c: string)
    requires NoDuplicates(users)
    ensures Smileys(ConsumedAll(ledger, users, name), u, c)
            == if c == name && u in users then Max(Smileys(ledger, u, c) - 1, 0) else Smileys(ledger, u, c)
    decreases |users|
  {
    if users != [] {
      var front := users[..|users| - 1];
      var last := users[|users| - 1];
      assert users == front + [last];
      forall i | 0 <= i < |front| ensures front[i] != last {
        assert front[i] == users[i];
      }
      ConsumedAllCounts(ledger, front, name, u, c);
    }
  }

  /** In a rotation without repeats, the successor of the member `k` steps on is the member `k + 1` steps on. */
  lemma WalkSteps(rotation: seq<UserId>, p: nat, k: nat)
    requires NoDuplicates(rotation) && p < |rotation| && k < |rotation|
    ensures Rotation.NextInRotation(rotation, Walk(rotation, p, k)) == Some(Walk(rotation, p, k + 1))
  {
    var i := Pos(p, k, |rotation|);
    forall j | 0 <= j < i ensures rotation[..i][j] != rotation[i] {
      assert rotation[..i][j] == rotation[j];
    }
    Rotation.SuccessorOfFirstOccurrence(rotation, i);
  }

  /** Fewer than a full round of steps meets no member twice. */
  lemma {:induction false} NotYetPassed(rotation: seq<UserId>, p: nat, k: nat, m: nat)
    requires NoDuplicates(rotation) && p < |rotation| && k <= m < |rotation|
    ensures Walk(rotation, p, m) !in Passed(rotation, p, k)
  {
    if k > 0 {
      NotYetPassed(rotation, p, k - 1, m);
      assert Pos(p, k - 1, |rotation|) != Pos(p, m, |rotation|);
    }
  }

  lemma {:induction false} PassedNoDuplicates(rotation: seq<UserId>, p: nat, k: nat)
    requires NoDuplicates(rotation) && p < |rotation| && k <= |rotation|
    ensures NoDuplicates(Passed(rotation, p, k))
  {
    if k > 0 {
      PassedNoDuplicates(rotation, p, k - 1);
      NotYetPassed(rotation, p, k - 1, k - 1);
      NoDuplicatesConcat(Passed(rotation, p, k - 1), [Walk(rotation, p, k - 1)]);
    }
  }

  lemma {:induction false} PassedHolds(rotation: seq<UserId>, p: nat, k: nat, j: nat)
    requires p < |rotation| && j < k <= |rotation|
    ensures Walk(rotation, p, j) in Passed(rotation, p, k)
  {
    if j < k - 1 {
      PassedHolds(rotation, p, k - 1, j);
    }
  }

  lemma {:induction false} PassedHoldCredit(rotation: seq<UserId>, p: nat, ledger: Ledger, name: string, k: nat)
    requires p < |rotation| && k <= |rotation|
    requires forall j :: 0 <= j < k ==> 0 < Smileys(ledger, Walk(rotation, p, j), name)
    ensures forall u :: u in Passed(rotation, p, k) ==> 0 < Smileys(ledger, u, name)
  {
    if k > 0 {
      PassedHoldCredit(rotation, p, ledger, name, k - 1);
    }
  }

  /**
   * A member holding a smiley gives one up and the search moves on to the
   * member one step further round.
   */
  lemma AdvancePassesOver(rotation: seq<UserId>, p: nat, k: nat, ledger: Ledger, name: string)
    requires NoDuplicates(rotation) && p < |rotation| && k < |rotation| && NonNegative(ledger)
    requires Smileys(ledger, Walk(rotation, p, k), name) != 0
    ensures Advance(rotation, Walk(rotation, p, k), ledger, name)
            == Advance(rotation, Walk(rotation, p, k + 1), Consumed(ledger, Walk(rotation, p, k), name), name)
  {
    WalkSteps(rotation, p, k);
  }

  /** Extending the members consumed by one more. */
  lemma ConsumedAllSnoc(ledger: Ledger, users: seq<UserId>, last: UserId, name: string)
    ensures ConsumedAll(ledger, users + [last], name) == Consumed(ConsumedAll(ledger, users, name), last, name)
  {
    assert (users + [last])[..|users|] == users;
  }

  /** Before a full round, the next member still holds the smiley they started with. */
  lemma NextStillHoldsCredit(rotation: seq<UserId>, p: nat, ledger: Ledger, name: string, k: nat)
    requires NoDuplicates(rotation) && p < |rotation| && k < |rotation|
    requires 0 < Smileys(ledger, Walk(rotation, p, k), name)
    ensures 0 < Smileys(ConsumedAll(ledger, Passed(rotation, p, k), name), Walk(rotation, p, k), name)
  {
    PassedNoDuplicates(rotation, p, k);
    NotYetPassed(rotation, p, k, k);
    ConsumedAllCounts(ledger, Passed(rotation, p, k), name, Walk(rotation, p, k), name);
  }

  lemma PassedConsumedStep(rotation: seq<UserId>, p: nat, ledger: Ledger, name: string, k: nat)
    requires p < |rotation| && 0 < k <= |rotation|
    ensures ConsumedAll(ledger, Passed(rotation, p, k), name)
            == Consumed(ConsumedAll(ledger, Passed(rotation, p, k - 1), name), Walk(rotation, p, k - 1), name)
  {
    var before := Passed(rotation, p, k - 1);
    var m := Walk(rotation, p, k - 1);
    assert Passed(rotation, p, k) == before + [m];
    ConsumedAllSnoc(ledger, before, m, name);
  }

  /** Passing over one more member who holds a smiley. */
  lemma SkipOneMore(rotation: seq<UserId>, p: nat, ledger: Ledger, name: string, k: nat)
    requires NoDuplicates(rotation) && p < |rotation| && 0 < k <= |rotation| && NonNegative(ledger)
    requires 0 < Smileys(ledger, Walk(rotation, p, k - 1), name)
    ensures Advance(rotation, Walk(rotation, p, k - 1), ConsumedAll(ledger, Passed(rotation, p, k - 1), name), name)
            == Advance(rotation, Walk(rotation, p, k), ConsumedAll(ledger, Passed(rotation, p, k), name), name)
  {
    var skipped := ConsumedAll(ledger, Passed(rotation, p, k - 1), name);
    NextStillHoldsCredit(rotation, p, ledger, name, k - 1);
    AdvancePassesOver(rotation, p, k - 1, skipped, name);
    PassedConsumedStep(rotation, p, ledger, name, k);
    assert Walk(rotation, p, k - 1 + 1) == Walk(rotation, p, k);
  }

  /**
   * Going round from the member at position `p`, the first `k` members
   * (at most one full round) who all hold a smiley for `name` are passed
   * over, each giving up one, and the search carries on from the member `k`
   * steps on.
   */
  lemma {:induction false} AdvanceSkipsAhead(rotation: seq<UserId>, p: nat, ledger: Ledger, name: string, k: nat)
    requires NoDuplicates(rotation) && p < |rotation| && k <= |rotation| && NonNegative(ledger)
    requires forall j :: 0 <= j < k ==> 0 < Smileys(ledger, Walk(rotation, p, j), name)
    ensures Advance(rotation, rotation[p], ledger, name)
            == Advance(rotation, Walk(rotation, p, k), ConsumedAll(ledger, Passed(rotation, p, k), name), name)
  {
    if k > 0 {
      AdvanceSkipsAhead(rotation, p, ledger, name, k - 1);
      SkipOneMore(rotation, p, ledger, name, k);
    }
  }

  /**
   * The skip rule on a rotation without repeats: the chore goes to the first
   * member without a smiley, going round from the starting member, and
   * exactly the members passed over on the way lose one smiley each.
   */
  lemma AdvanceStopsAtFirstWithoutSmiley(rotation: seq<UserId>, p: nat, ledger: Ledger, name: string, k: nat)
    requires NoDuplicates(rotation) && p < |rotation| && k < |rotation| && NonNegative(ledger)
    requires forall j :: 0 <= j < k ==> 0 < Smileys(ledger, Walk(rotation, p, j), name)
    requires Smileys(ledger, Walk(rotation, p, k), name) == 0
    ensures
      var r := Advance(rotation, rotation[p], ledger, name);
      && r.0 == Walk(rotation, p, k)
      && forall u, c :: Smileys(r.1, u, c)
           == if c == name && u in Passed(rotation, p, k) then Smileys(ledger, u, c) - 1 else Smileys(ledger, u, c)
  {
    var passed := Passed(rotation, p, k);
    AdvanceSkipsAhead(rotation, p, ledger, name, k);
    PassedNoDuplicates(rotation, p, k);
    NotYetPassed(rotation, p, k, k);
    PassedHoldCredit(rotation, p, ledger, name, k);
    ConsumedAllCounts(ledger, passed, name, Walk(rotation, p, k), name);
    forall u, c ensures Smileys(ConsumedAll(ledger, passed, name), u, c)
                        == if c == name && u in passed then Smileys(ledger, u, c) - 1 else Smileys(ledger, u, c) {
      ConsumedAllCounts(ledger, passed, name, u, c);
    }
  }

  /** One full round from any position meets every member of the rotation. */
  lemma RoundMeetsEveryone(rotation: seq<UserId>, p: nat, u: UserId)
    requires p < |rotation| && u in rotation
    ensures u in Passed(rotation, p, |rotation|)
  {
    var n := |rotation|;
    var i := Rotation.IndexOf(rotation, u);
    var j := if p <= i then i - p else i + n - p;
    assert Pos(p, j, n) == i;
    PassedHolds(rotation, p, n, j);
  }

  /**
   * When every member holds a smiley for `name`, one full round takes one
   * from each member and the search starts over from the same member.
   */
  lemma AdvanceFullRound(rotation: seq<UserId>, p: nat, ledger: Ledger, name: string)
    requires NoDuplicates(rotation) && p < |rotation| && NonNegative(ledger)
    requires forall u :: u in rotation ==> 0 < Smileys(ledger, u, name)
    ensures
      var after := ConsumedAll(ledger, Passed(rotation, p, |rotation|), name);
      && NonNegative(after)
      && Advance(rotation, rotation[p], ledger, name) == Advance(rotation, rotation[p], after, name)
      && forall u, c :: Smileys(after, u, c)
           == if c == name && u in rotation then Smileys(ledger, u, c) - 1 else Smileys(ledger, u, c)
  {
    var n := |rotation|;
    var passed := Passed(rotation, p, n);
    var after := ConsumedAll(ledger, passed, name);
    AdvanceSkipsAhead(rotation, p, ledger, name, n);
    assert Walk(rotation, p, n) == rotation[p];
    PassedNoDuplicates(rotation, p, n);
    forall u, c ensures Smileys(after, u, c)
                        == if c == name && u in rotation then Smileys(ledger, u, c) - 1 else Smileys(ledger, u, c) {
      ConsumedAllCounts(ledger, passed, name, u, c);
      if u in rotation {
        RoundMeetsEveryone(rotation, p, u);
      }
    }
  }

  /** The repaired `donechore`: the loop advances its candidate and stops at the first member without a smiley. */
  method CompleteChore(chores: Registry, ledger: Ledger, name: string, author: UserId,
                       today: Date) returns (outcome: DoneOutcome)
    requires WellFormed(chores) && NonNegative(ledger)
    ensures outcome == Completed(chores, ledger, name, author, today)
  {
    if name !in chores {
      return NoSuchChore;
    }
    var chore := chores[name];
    var smileys := ledger;
    if author == chore.assignedTo {
      var candidate := Rotation.NextInRotation(chore.rotation, author).value;
      ghost var target := Advance(chore.rotation, candidate, ledger, name);
      while Smileys(smileys, candidate, name) != 0
        invariant candidate in chore.rotation && NonNegative(smileys)
        invariant Advance(chore.rotation, candidate, smileys, name) == target
        decreases TotalCredit(smileys, chore.rotation, name)
      {
        ConsumeLowersTotal(smileys, chore.rotation, candidate, name);
        smileys := RemoveSmiley(smileys, candidate, name);
        candidate := Rotation.NextInRotation(chore.rotation, candidate).value;
      }
      chore := chore.(assignedTo := candidate);
    } else {
      smileys := AddSmiley(smileys, author, name);
    }
    chore := chore.(lastDoneBy := Some(author));
    chore := chore.(lastDone := Some(today));
    return Saved(chores[name := chore], smileys);
  }

  /** Every completion of a known chore now ends with both stores saved. */
  lemma CompletedAlwaysSaves(chores: Registry, ledger: Ledger, name: string, author: UserId, today: Date)
    requires WellFormed(chores) && NonNegative(ledger) && name in chores
    ensures Completed(chores, ledger, name, author, today).Saved?
  {
  }

  /** As written, the assignee's completion never reaches the save, for any number of passes. */
  lemma AsWrittenNeverSaves(chores: Registry, ledger: Ledger, name: string, author: UserId, today: Date, fuel: nat)
    requires WellFormed(chores) && name in chores && author == chores[name].assignedTo
    ensures DoneAsWritten(chores, ledger, name, author, today, fuel).StillLooping?
  {
  }

  /**
   * A household of three with roster [a, b, c] adds the weekly chore
   * "dishes" for a. When a completes it, b takes over. When c completes it out
   * of turn, b keeps the chore and c earns a smiley. When b completes it, c
   * gives up that smiley and is skipped, so the chore comes back to a.
   */
  lemma ThreeMemberHousehold(a: UserId, b: UserId, c: UserId, d1: Date, d2: Date, d3: Date)
    requires a != b && b != c && a != c
    ensures
      var r0 := ChoreAdded(map[], [a, b, c], a, "dishes", 7, None).value;
      var o1 := Completed(r0, map[], "dishes", a, d1);
      && o1.Saved? && o1.chores["dishes"].assignedTo == b && o1.ledger == map[]
      && var o2 := Completed(o1.chores, o1.ledger, "dishes", c, d2);
      && o2.Saved? && o2.chores["dishes"].assignedTo == b && Smileys(o2.ledger, c, "dishes") == 1
      && var o3 := Completed(o2.chores, o2.ledger, "dishes", b, d3);
      && o3.Saved? && o3.chores["dishes"].assignedTo == a && Smileys(o3.ledger, c, "dishes") == 0
      && o3.chores["dishes"].lastDoneBy == Some(b)
  {
    var rotation := [a, b, c];
    Rotation.SuccessorOfFirstOccurrence(rotation, 0);
    Rotation.SuccessorOfFirstOccurrence(rotation, 1);
    Rotation.SuccessorOfFirstOccurrence(rotation, 2);
    var r0 := ChoreAdded(map[], rotation, a, "dishes", 7, None).value;
    assert r0["dishes"].rotation == rotation;
    var o1 := Completed(r0, map[], "dishes", a, d1);
    assert Advance(rotation, b, map[], "dishes") == (b, map[]);
    var o2 := Completed(o1.chores, o1.ledger, "dishes", c, d2);
    var credited := Awarded(map[], c, "dishes");
    assert o2.ledger == credited;
    var consumed := Consumed(credited, c, "dishes");
    assert Advance(rotation, a, consumed, "dishes") == (a, consumed);
    assert Advance(rotation, c, credited, "dishes") == (a, consumed);
  }
}
