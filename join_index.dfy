/**
 * The join index: a map from user id to user, built by one pass over the
 * users with `map.set(u.id, u)`, so that a later user overwrites an earlier
 * one with the same id.
 */
module JoinIndex {
  import opened Records

  /** The map after `set` has been called for every user, in order. */
  function UserMapOf(users: seq<User>): (m: map<int, User>)
    ensures forall i :: 0 <= i < |users| ==> users[i].id in m
    ensures users != [] ==> m[users[|users| - 1].id] == users[|users| - 1]
  {
    if users == [] then map[]
    else
      var last := users[|users| - 1];
      UserMapOf(users[..|users| - 1])[last.id := last]
  }

  /** The ids that occur among `users`. */
  function IdsOf(users: seq<User>): set<int>
  {
    set u | u in users :: u.id
  }

  /** `users[i]` is the last user in the sequence with its id. */
  ghost predicate LastWithId(users: seq<User>, i: int)
  {
    0 <= i < |users| && forall j :: i < j < |users| ==> users[j].id != users[i].id
  }

  /**
   * The map holds exactly the ids of the users; each key maps to a user
   * with that id, and that user is the last one in the sequence with it.
   */
  lemma {:induction false} UserMapOfCharacterised(users: seq<User>)
    ensures UserMapOf(users).Keys == IdsOf(users)
    ensures forall id :: id in UserMapOf(users) ==>
      UserMapOf(users)[id] in users && UserMapOf(users)[id].id == id
    ensures forall i :: LastWithId(users, i) ==> UserMapOf(users)[users[i].id] == users[i]
  {
    if users != [] {
      var init, last := users[..|users| - 1], users[|users| - 1];
      assert users == init + [last];
      UserMapOfCharacterised(init);
      assert IdsOf(users) == IdsOf(init) + {last.id};
      forall i | LastWithId(users, i) ensures UserMapOf(users)[users[i].id] == users[i] {
        if i < |users| - 1 {
          assert LastWithId(init, i);
        }
      }
    }
  }

  /** `new Map()` followed by `map.set(u.id, u)` for each user in order. */
  method BuildUserMap(users: seq<User>) returns (userMap: map<int, User>)
    ensures userMap == UserMapOf(users)
    ensures userMap.Keys == IdsOf(users)
    ensures forall id :: id in userMap ==> userMap[id] in users && userMap[id].id == id
    ensures forall i :: LastWithId(users, i) ==> userMap[users[i].id] == users[i]
  {
    userMap := map[];
    var i := 0;
    while i < |users|
      invariant 0 <= i <= |users|
      invariant userMap == UserMapOf(users[..i])
    {
      assert users[..i + 1][..i] == users[..i];
      userMap := userMap[users[i].id := users[i]];
      i := i + 1;
    }
    assert users[..i] == users;
    UserMapOfCharacterised(users);
  }

  /** `userMap.get(id)`: the user stored under `id`, or none. */
  function Lookup(userMap: map<int, User>, id: int): (u: Option<User>)
    ensures u.Some? <==> id in userMap
    ensures u.Some? ==> u.value == userMap[id]
  {
    if id in userMap then Some(userMap[id]) else None
  }
}
