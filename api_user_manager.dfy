/**
 * The HTTP front end's in-memory `UserManager`: the same list of users and
 * id counter, with every answer wrapped in a `{success, message/error, data}`
 * envelope whose payload is a `to_hash` snapshot, and with the creator and
 * the creation and update times recorded on each user. Nothing here filters
 * by `created_by`: every caller sees and changes every user.
 */
module ApiUserManager {
  import opened Wrappers
  import opened Users

  /** Why an envelope says `success: false` (its `data` is then nil). */
  datatype Error = InvalidUser | UserNotFound(id: int) | InvalidUpdate

  /** The envelope: `success: true` with `data`, or `success: false` with an error. */
  datatype Reply<T> = Success(data: T) | Failure(error: Error)

  /** The payload of a listing: `count` beside the snapshots in `data`. */
  datatype Listing = Listing(count: nat, data: seq<UserRecord>)

  class UserManager {
    var users: seq<User>
    var nextId: int
    /** The rule `User#valid?` applies. */
    const isValid: ValidityRule

    /** As for the terminal store: ids start at 1, stay below the counter and rise in store order. */
    ghost predicate Valid()
      reads this
    {
      && 1 <= nextId
      && IdsWithin(users, 1, nextId)
      && IdsAscending(users)
    }

    constructor (isValid: ValidityRule)
      ensures Valid()
      ensures users == [] && nextId == 1 && this.isValid == isValid
    {
      users := [];
      nextId := 1;
      this.isValid := isValid;
    }

    /** `@users << user` with `@next_id += 1`, for a user carrying the counter's value. */
    method Push(user: User)
      requires Valid() && user.id == nextId
      modifies this
      ensures Valid()
      ensures users == old(users) + [user] && nextId == old(nextId) + 1
      ensures Hashes(users) == old(Hashes(users)) + [user.ToHash()]
    {
      HashesAppend(users, user);
      AppendNewest(users, user, nextId);
      users, nextId := users + [user], nextId + 1;
    }

    /**
     * An invalid user is refused with no change. A valid one gets the
     * counter's value as its id, the caller's `createdBy` ("system" when
     * none is given), and `now` as both its creation and update time; it is
     * appended, the counter advances, and its snapshot is returned.
     */
    method CreateUser(name: string, email: string, age: int, now: Timestamp, createdBy: string := "system")
      returns (reply: Reply<UserRecord>)
      requires Valid()
      modifies this
      ensures Valid()
      ensures !isValid(name, email, age) ==>
        reply == Failure(InvalidUser) && users == old(users) && nextId == old(nextId)
      ensures isValid(name, email, age) ==>
        && reply == Success(UserRecord(old(nextId), name, email, age, Some(createdBy), Some(now), Some(now)))
        && |users| == |old(users)| + 1 && users[..|old(users)|] == old(users) && fresh(users[|old(users)|])
        && Hashes(users) == old(Hashes(users)) + [reply.data]
        && nextId == old(nextId) + 1
    {
      var currentTime := now;
      var user := new User(nextId, name, email, age, Some(createdBy), Some(currentTime), Some(currentTime));
      if !isValid(user.name, user.email, user.age) {
        return Failure(InvalidUser);
      }
      Push(user);
      reply := Success(user.ToHash());
    }

    /** Every user's snapshot in store order, with `count` the number of users. */
    function ReadAllUsers(): (r: Listing)
      reads this, users
      ensures r.count == |r.data| == |users|
      ensures forall i :: 0 <= i < |users| ==> r.data[i] == users[i].ToHash()
    {
      Listing(|users|, Hashes(users))
    }

    /** The snapshot of the first user with the id, or a not-found error. */
    function ReadUserById(id: int): (r: Reply<UserRecord>)
      reads this, users
      ensures r.Failure? <==> forall i :: 0 <= i < |users| ==> users[i].id != id
      ensures r.Failure? ==> r.error == UserNotFound(id)
      ensures r.Success? ==>
        exists k :: 0 <= k < |users| && r.data == users[k].ToHash() && r.data.id == id
          && forall j :: 0 <= j < k ==> users[j].id != id
    {
      match FirstWithId(users, id)
      case None => Failure(UserNotFound(id))
      case Some(k) => Success(users[k].ToHash())
    }

    /**
     * On an absent id: a not-found error and no change. Otherwise the given
     * fields are written into the first user with that id and its update
     * time is set to `now`, nothing else changes, and then the user is
     * judged: valid gives its new snapshot, invalid gives an error, and the
     * writes stay either way. `updatedBy` is accepted and not used.
     */
    method UpdateUser(id: int, name: Option<string>, email: Option<string>, age: Option<int>,
                      now: Timestamp, updatedBy: string := "system")
      returns (reply: Reply<UserRecord>)
      requires Valid()
      modifies users
      ensures Valid() && users == old(users) && nextId == old(nextId)
      ensures FirstWithId(users, id).None? ==>
        reply == Failure(UserNotFound(id)) && Hashes(users) == old(Hashes(users))
      ensures FirstWithId(users, id).Some? ==>
        var k := FirstWithId(users, id).value;
        var updated := Overlay(old(users[k].ToHash()), name, email, age).(updatedAt := Some(now));
        && Hashes(users) == old(Hashes(users))[k := updated]
        && reply == if isValid(updated.name, updated.email, updated.age) then Success(updated) else Failure(InvalidUpdate)
    {
      var found := FirstWithId(users, id);
      if found.None? {
        return Failure(UserNotFound(id));
      }
      var at := found.value;
      var user := users[at];
      DistinctObjects(users, at);
      user.Assign(name, email, age);
      user.updatedAt := Some(now);
      if !isValid(user.name, user.email, user.age) {
        return Failure(InvalidUpdate);
      }
      reply := Success(user.ToHash());
    }

    /**
     * On an absent id: a not-found error and no change. Otherwise the first
     * user with that id is cut out, the others keep their order, the counter
     * is left alone, and the removed user's snapshot is returned.
     */
    method DeleteUser(id: int) returns (reply: Reply<UserRecord>)
      requires Valid()
      modifies this
      ensures Valid() && nextId == old(nextId)
      ensures FirstWithId(old(users), id).None? ==>
        reply == Failure(UserNotFound(id)) && users == old(users)
      ensures FirstWithId(old(users), id).Some? ==>
        var k := FirstWithId(old(users), id).value;
        && users == old(users)[..k] + old(users)[k + 1..]
        && reply == Success(old(users)[k].ToHash())
        && reply.data.id == id
    {
      var index := FirstWithId(users, id);
      if index.None? {
        return Failure(UserNotFound(id));
      }
      var deletedUser := users[index.value];
      RemoveOne(users, index.value, nextId);
      users := users[..index.value] + users[index.value + 1..];
      reply := Success(deletedUser.ToHash());
    }

    /**
     * The snapshots of the users whose downcased name contains the downcased
     * query, in store order, with `count` their number.
     */
    function SearchUsersByName(query: string): (r: Listing)
      reads this, users
      ensures r.count == |r.data|
      ensures forall i :: 0 <= i < |r.data| ==> NameMatches(r.data[i].name, query)
      ensures forall i :: 0 <= i < |users| && NameMatches(users[i].name, query) ==> users[i].ToHash() in r.data
      ensures IsSubsequence(r.data, Hashes(users))
      ensures r.data == Hashes(Select(users, query))
    {
      var found := Select(users, query);
      SubsequenceHashes(found, users);
      Listing(|found|, Hashes(found))
    }

    /** `total_users` and the mean age (0 for an empty store), before rounding. */
    function GetStats(): (s: Stats)
      reads this, users
      ensures s.total == |users|
      ensures s.total == 0 ==> s.averageAge == 0.0
      ensures s.total > 0 ==> s.averageAge * (s.total as real) == SumAges(Hashes(users)) as real
    {
      StatsOf(Hashes(users))
    }

    /** Some stored user has the id. */
    predicate UserExists(id: int)
      reads this
      ensures UserExists(id) <==> exists i :: 0 <= i < |users| && users[i].id == id
    {
      AnyWithId(users, id)
    }

    /** A successful read is exactly the case where `user_exists?` holds. */
    lemma ExistsIffReadable(id: int)
      ensures UserExists(id) <==> ReadUserById(id).Success?
    {
      AnyIffFound(users, id);
    }
  }
}
