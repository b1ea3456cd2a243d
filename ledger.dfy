/**
 * The smiley ledger (`smiley_system.json`): for each member, a map from chore
 * name to the number of smileys (banked skips) the member holds for it.
 * `add_smiley` and `remove_smiley` update the nested map step by step; the
 * functions Awarded and Consumed give their effect in closed form.
 */
module Ledger {
  import opened Types

  /** Member id to chore name to count; the file keys members by `str(id)`. */
  type Ledger = map<UserId, map<string, int>>

  /** Every recorded count is at least zero. */
  predicate NonNegative(ledger: Ledger) {
    forall u, c :: u in ledger && c in ledger[u] ==> 0 <= ledger[u][c]
  }

  /** The counts of one member, empty when the member has no entry yet. */
  function EntriesOf(ledger: Ledger, user: UserId): map<string, int> {
    if user in ledger then ledger[user] else map[]
  }

  function Max(a: int, b: int): int {
    if a < b then b else a
  }

  /** `get_smileys`: the count for (user, chore), read without changing anything. */
  function Smileys(ledger: Ledger, user: UserId, chore: string): (n: int)
    ensures user !in ledger || chore !in ledger[user] ==> n == 0
    ensures NonNegative(ledger) ==> 0 <= n
  {
    if user !in ledger then 0
    else if chore !in ledger[user] then 0
    else ledger[user][chore]
  }

  /** The ledger after one smiley is awarded to `user` for `chore`. */
  function Awarded(ledger: Ledger, user: UserId, chore: string): (r: Ledger)
    ensures Smileys(r, user, chore) == Smileys(ledger, user, chore) + 1
    ensures forall u, c :: u != user || c != chore ==> Smileys(r, u, c) == Smileys(ledger, u, c)
    ensures r.Keys == ledger.Keys + {user} && chore in r[user]
    ensures forall u :: u in ledger && u != user ==> r[u] == ledger[u]
    ensures NonNegative(ledger) ==> NonNegative(r)
  {
    ledger[user := EntriesOf(ledger, user)[chore := Smileys(ledger, user, chore) + 1]]
  }

  /**
   * The ledger after one smiley of `user` for `chore` is taken back: the
   * count drops by one but never below zero, and a missing entry is created
   * at zero.
   */
  function Consumed(ledger: Ledger, user: UserId, chore: string): (r: Ledger)
    ensures Smileys(r, user, chore) == Max(Smileys(ledger, user, chore) - 1, 0)
    ensures forall u, c :: u != user || c != chore ==> Smileys(r, u, c) == Smileys(ledger, u, c)
    ensures r.Keys == ledger.Keys + {user} && chore in r[user]
    ensures forall u :: u in ledger && u != user ==> r[u] == ledger[u]
    ensures NonNegative(ledger) ==> NonNegative(r)
  {
    ledger[user := EntriesOf(ledger, user)[chore := Max(Smileys(ledger, user, chore) - 1, 0)]]
  }

  /** `add_smiley`: create the member's map if needed, then start the count at 1 or add 1. */
  method AddSmiley(ledger: Ledger, user: UserId, chore: string) returns (updated: Ledger)
    ensures updated == Awarded(ledger, user, chore)
  {
    updated := ledger;
    if user !in updated {
      updated := updated[user := map[]];
    }
    var entries := updated[user];
    if chore !in entries {
      entries := entries[chore := 1];
    } else {
      entries := entries[chore := entries[chore] + 1];
    }
    updated := updated[user := entries];
  }

  /** `remove_smiley`: create a missing count at 0, otherwise subtract 1, then clamp at 0. */
  method RemoveSmiley(ledger: Ledger, user: UserId, chore: string) returns (updated: Ledger)
    ensures updated == Consumed(ledger, user, chore)
  {
    updated := ledger;
    if user !in updated {
      updated := updated[user := map[]];
    }
    var entries := updated[user];
    if chore !in entries {
      entries := entries[chore := 0];
    } else {
      entries := entries[chore := entries[chore] - 1];
    }
    if entries[chore] < 0 {
      entries := entries[chore := 0];
    }
    assert entries == EntriesOf(ledger, user)[chore := Max(Smileys(ledger, user, chore) - 1, 0)];
    updated := updated[user := entries];
  }

  /** Awarding a smiley and then taking it back leaves every count as it was. */
  lemma AwardThenConsumeRestores(ledger: Ledger, user: UserId, chore: string, u: UserId, c: string)
    requires NonNegative(ledger)
    ensures Smileys(Consumed(Awarded(ledger, user, chore), user, chore), u, c) == Smileys(ledger, u, c)
  {
  }

  /** Taking a smiley from a member who has none leaves the count at zero. */
  lemma ConsumeAtZeroStaysZero(ledger: Ledger, user: UserId, chore: string)
    requires Smileys(ledger, user, chore) == 0
    ensures Smileys(Consumed(ledger, user, chore), user, chore) == 0
  {
  }
}
