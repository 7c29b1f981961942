/**
 * The terminal front end's in-memory `UserManager`: a list of users and a
 * monotonic id counter. Failures are reported as `nil` / `false`, and the
 * stored `User` objects themselves are handed back to the caller.
 */
module CliUserManager {
  import opened Wrappers
  import opened Users

  class UserManager {
    var users: seq<User>
    var nextId: int
    /** The rule `User#valid?` applies. */
    const isValid: ValidityRule

    /**
     * Ids start at 1, every stored id is below the counter, and ids rise in
     * store order (users are appended with the counter's value and deletion
     * keeps the order), so no two stored users share an id or an object.
     */
    ghost predicate Valid()
      reads this
    {
      && 1 <= nextId
      && IdsWithin(users, 1, nextId)
      && IdsAscending(users)
    }

    constructor (isValid: ValidityRule)
      ensures Valid()
      ensures users == [] && nextId == 1 && this.isValid == isValid
    {
      users := [];
      nextId := 1;
      this.isValid := isValid;
    }

    /** `@users << user` with `@next_id += 1`, for a user carrying the counter's value. */
    method Push(user: User)
      requires Valid() && user.id == nextId
      modifies this
      ensures Valid()
      ensures users == old(users) + [user] && nextId == old(nextId) + 1
      ensures Hashes(users) == old(Hashes(users)) + [user.ToHash()]
    {
      HashesAppend(users, user);
      AppendNewest(users, user, nextId);
      users, nextId := users + [user], nextId + 1;
    }

    /**
     * An invalid user is dropped and nothing changes; a valid one is
     * appended with the counter's value as its id, and the counter advances;
     * `Valid()` then makes the new id the largest stored.
     */
    method CreateUser(name: string, email: string, age: int) returns (u: User?)
      requires Valid()
      modifies this
      ensures Valid()
      ensures !isValid(name, email, age) ==> u == null && users == old(users) && nextId == old(nextId)
      ensures isValid(name, email, age) ==>
        && u != null && fresh(u)
        && users == old(users) + [u]
        && nextId == old(nextId) + 1
        && u.ToHash() == UserRecord(old(nextId), name, email, age, None, None, None)
        && Hashes(users) == old(Hashes(users)) + [u.ToHash()]
    {
      var user := new User(nextId, name, email, age, None, None, None);
      if !isValid(user.name, user.email, user.age) {
        return null;
      }
      Push(user);
      u := user;
    }

    /** The stored list itself, in store order (an empty store gives `[]`). */
    function ReadAllUsers(): (r: seq<User>)
      reads this
      ensures r == users
    {
      if |users| == 0 then [] else users
    }

    /** The first stored user with the id, or null when there is none. */
    function ReadUserById(id: int): (u: User?)
      reads this
      ensures u == null <==> forall i :: 0 <= i < |users| ==> users[i].id != id
      ensures u != null ==>
        exists k :: 0 <= k < |users| && users[k] == u && u.id == id && forall j :: 0 <= j < k ==> users[j].id != id
    {
      match FirstWithId(users, id)
      case None => null
      case Some(k) => users[k]
    }

    /**
     * On an absent id nothing changes and null is returned. Otherwise the
     * given fields are written into the first user with that id and nothing
     * else changes; the user is returned when it is still valid, and null
     * when it is not, in which case the new fields stay written.
     */
    method UpdateUser(id: int, name: Option<string>, email: Option<string>, age: Option<int>) returns (u: User?)
      requires Valid()
      modifies users
      ensures Valid() && users == old(users) && nextId == old(nextId)
      ensures FirstWithId(users, id).None? ==> u == null && Hashes(users) == old(Hashes(users))
      ensures FirstWithId(users, id).Some? ==>
        var k := FirstWithId(users, id).value;
        && Hashes(users) == old(Hashes(users))[k := Overlay(old(users[k].ToHash()), name, email, age)]
        && (u != null <==> isValid(users[k].name, users[k].email, users[k].age))
        && (u != null ==> u == users[k])
    {
      var found := FirstWithId(users, id);
      if found.None? {
        return null;
      }
      var at := found.value;
      var user := users[at];
      DistinctObjects(users, at);
      user.Assign(name, email, age);
      if !isValid(user.name, user.email, user.age) {
        return null;
      }
      u := user;
    }

    /**
     * On an absent id nothing changes and false is returned. Otherwise the
     * first user with that id is cut out, the others keep their order, and
     * the counter is left alone (so a deleted id is never handed out again).
     */
    method DeleteUser(id: int) returns (deleted: bool)
      requires Valid()
      modifies this
      ensures Valid() && nextId == old(nextId)
      ensures deleted <==> FirstWithId(old(users), id).Some?
      ensures !deleted ==> users == old(users)
      ensures deleted ==>
        var k := FirstWithId(old(users), id).value;
        users == old(users)[..k] + old(users)[k + 1..]
    {
      var index := FirstWithId(users, id);
      if index.None? {
        return false;
      }
      RemoveOne(users, index.value, nextId);
      users := users[..index.value] + users[index.value + 1..];
      deleted := true;
    }

    /** The users whose downcased name contains the downcased query, in store order. */
    function SearchUsersByName(query: string): (r: seq<User>)
      reads this, users
      ensures forall i :: 0 <= i < |r| ==> r[i] in users && NameMatches(r[i].name, query)
      ensures forall i :: 0 <= i < |users| && NameMatches(users[i].name, query) ==> users[i] in r
      ensures IsSubsequence(r, users)
    {
      Select(users, query)
    }

    /** The number of users, and their mean age (0 for an empty store). */
    function GetStats(): (s: Stats)
      reads this, users
      ensures s.total == |users|
      ensures s.total == 0 ==> s.averageAge == 0.0
      ensures s.total > 0 ==> s.averageAge * (s.total as real) == SumAges(Hashes(users)) as real
    {
      StatsOf(Hashes(users))
    }

    /** One `to_hash` snapshot per user, in store order. */
    function ExportUsers(): (r: seq<UserRecord>)
      reads this, users
      ensures |r| == |users|
      ensures forall i :: 0 <= i < |users| ==> r[i] == users[i].ToHash()
    {
      Hashes(users)
    }

    /** Some stored user has the id. */
    predicate UserExists(id: int)
      reads this
      ensures UserExists(id) <==> exists i :: 0 <= i < |users| && users[i].id == id
    {
      AnyWithId(users, id)
    }

    /** `user_exists?` holds exactly when `read_user_by_id` finds a user. */
    lemma ExistsIffReadable(id: int)
      ensures UserExists(id) <==> ReadUserById(id) != null
    {
      AnyIffFound(users, id);
    }
  }
}
