/**
 * The rotation successor rule of `get_next_user_in_rotation`: a one-member
 * rotation always yields that member, an id missing from the rotation resets
 * to the first member, and otherwise the member after the first occurrence of
 * the current id is chosen, wrapping from the last member to the first.
 */
module Rotation {
  import opened Types

  /** `list.index`: the position of the first occurrence of `x` in `s`. */
  function IndexOf(s: seq<UserId>, x: UserId): (i: nat)
    requires x in s
    ensures i < |s| && s[i] == x
    ensures x !in s[..i]
  {
    if s[0] == x then 0 else 1 + IndexOf(s[1..], x)
  }

  function NextInRotation(rotation: seq<UserId>, current: UserId): (next: Option<UserId>)
    ensures next.None? <==> rotation == []
    ensures next.Some? ==> next.value in rotation
  {
    if |rotation| == 1 then Some(rotation[0])
    else if current !in rotation then (if rotation == [] then None else Some(rotation[0]))
    else Some(rotation[(IndexOf(rotation, current) + 1) % |rotation|])
  }

  /** A one-member rotation loops back to its member, whatever the current id. */
  lemma SingleMemberLoops(member: UserId, current: UserId)
    ensures NextInRotation([member], current) == Some(member)
  {
  }

  /** An id that is not in the rotation resets to the start of the rotation. */
  lemma AbsentIdResets(rotation: seq<UserId>, current: UserId)
    requires rotation != [] && current !in rotation
    ensures NextInRotation(rotation, current) == Some(rotation[0])
  {
  }

  /**
   * If position `i` holds the first occurrence of the current id, the result
   * is the member at position `i + 1`, or the first member when `i` is last.
   */
  lemma {:induction false} SuccessorOfFirstOccurrence(rotation: seq<UserId>, i: nat)
    requires i < |rotation| && rotation[i] !in rotation[..i]
    ensures NextInRotation(rotation, rotation[i])
            == Some(if i + 1 == |rotation| then rotation[0] else rotation[i + 1])
  {
    var k := IndexOf(rotation, rotation[i]);
    assert k == i;
    var n := |rotation|;
    if i + 1 == n {
      assert (i + 1) % n == 0;
    } else {
      assert (i + 1) % n == i + 1;
    }
  }

  /** The wrap-around case: the last member of `[a, b, c]` is followed by `a`. */
  lemma WrapsAround(a: UserId, b: UserId, c: UserId)
    requires a != c && b != c
    ensures NextInRotation([a, b, c], c) == Some(a)
  {
    SuccessorOfFirstOccurrence([a, b, c], 2);
  }
}
