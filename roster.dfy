/**
 * The global roster (`chore_rotation.json`): the ordered member ids that
 * `adduser`, `removeuser` and `clearrotation` maintain.
 */
module Roster {
  import opened Types
  import Rotation

  /** The ids of `users` that are not in `roster`, in argument order, repeats kept. */
  function Unlisted(users: seq<UserId>, roster: seq<UserId>): seq<UserId> {
    if users == [] then []
    else
      var last := users[|users| - 1];
      Unlisted(users[..|users| - 1], roster) + (if last in roster then [] else [last])
  }

  /** An id is appended exactly when the call names it and the roster lacks it. */
  lemma {:induction false} UnlistedMembers(users: seq<UserId>, roster: seq<UserId>, u: UserId)
    ensures u in Unlisted(users, roster) <==> u in users && u !in roster
  {
    if users != [] {
      var init := users[..|users| - 1];
      UnlistedMembers(init, roster, u);
      assert users == init + [users[|users| - 1]];
    }
  }

  /**
   * Repeats within one call are not filtered: an id missing from the roster
   * is appended as many times as the call names it.
   */
  lemma {:induction false} UnlistedCounts(users: seq<UserId>, roster: seq<UserId>, u: UserId)
    ensures multiset(Unlisted(users, roster))[u] == if u in roster then 0 else multiset(users)[u]
  {
    if users != [] {
      var init := users[..|users| - 1];
      UnlistedCounts(init, roster, u);
      assert users == init + [users[|users| - 1]];
    }
  }

  lemma {:induction false} UnlistedNoDuplicates(users: seq<UserId>, roster: seq<UserId>)
    requires NoDuplicates(users)
    ensures NoDuplicates(Unlisted(users, roster))
  {
    if users != [] {
      var init, last := users[..|users| - 1], users[|users| - 1];
      UnlistedNoDuplicates(init, roster);
      UnlistedMembers(init, roster, last);
      assert last !in init;
    }
  }

  /** `adduser`: append, in argument order, every id that is not in the roster yet. */
  method AddUsers(roster: seq<UserId>, users: seq<UserId>) returns (newRoster: seq<UserId>, added: seq<UserId>)
    ensures added == Unlisted(users, roster)
    ensures newRoster == roster + added
    ensures forall u :: u in added <==> u in users && u !in roster
    ensures NoDuplicates(roster) && NoDuplicates(users) ==> NoDuplicates(newRoster)
  {
    added := [];
    var i := 0;
    while i < |users|
      invariant i <= |users|
      invariant added == Unlisted(users[..i], roster)
    {
      assert users[..i + 1][..i] == users[..i];
      if users[i] !in roster {
        added := added + [users[i]];
      }
      i := i + 1;
    }
    assert users[..i] == users;
    newRoster := roster + added;
    forall u {
      UnlistedMembers(users, roster, u);
    }
    if NoDuplicates(roster) && NoDuplicates(users) {
      UnlistedNoDuplicates(users, roster);
      NoDuplicatesConcat(roster, added);
    }
  }

  /** `removeuser`: delete the first occurrence of a listed id, else change nothing. */
  method RemoveUser(roster: seq<UserId>, user: UserId) returns (newRoster: seq<UserId>)
    ensures user !in roster ==> newRoster == roster
    ensures user in roster ==>
      var k := Rotation.IndexOf(roster, user);
      newRoster == roster[..k] + roster[k + 1..]
    ensures multiset(newRoster) == multiset(roster) - multiset{user}
    ensures NoDuplicates(roster) ==> NoDuplicates(newRoster) && user !in newRoster
  {
    if user !in roster {
      return roster;
    }
    var i := 0;
    while roster[i] != user
      invariant i < |roster| && user in roster[i..]
      invariant user !in roster[..i]
      decreases |roster| - i
    {
      i := i + 1;
    }
    assert i == Rotation.IndexOf(roster, user);
    newRoster := roster[..i] + roster[i + 1..];
    DeletionFacts(roster, i);
  }

  /** What deleting position `i` does to the contents of a sequence. */
  lemma DeletionFacts(s: seq<UserId>, i: nat)
    requires i < |s|
    ensures multiset(s[..i] + s[i + 1..]) == multiset(s) - multiset{s[i]}
    ensures NoDuplicates(s) ==> NoDuplicates(s[..i] + s[i + 1..]) && s[i] !in s[..i] + s[i + 1..]
  {
    var rest := s[..i] + s[i + 1..];
    assert s == s[..i] + [s[i]] + s[i + 1..];
    assert forall k :: 0 <= k < |rest| ==> rest[k] == s[if k < i then k else k + 1];
  }

  /** `clearrotation`: the roster is replaced by one that holds no member. */
  function ClearedRoster(): (r: seq<UserId>)
    ensures forall u :: u !in r
    ensures NoDuplicates(r)
  {
    []
  }

  /** A single call that names a new member twice appends that member twice. */
  lemma SameCallRepeatsKept(roster: seq<UserId>, u: UserId)
    requires u !in roster
    ensures roster + Unlisted([u, u], roster) == roster + [u, u]
  {
    assert Unlisted([u], roster) == [u] by {
      assert [u][..0] == [];
    }
    assert Unlisted([u, u], roster) == Unlisted([u], roster) + [u] by {
      assert [u, u][..1] == [u];
    }
  }
}
