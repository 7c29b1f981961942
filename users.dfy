/**
 * The user records both in-memory `UserManager`s keep, and the queries they
 * share: lookup of the first user with an id (`find`/`find_index`), the
 * existence test (`any?`), the case-insensitive name search (`select`) and
 * the age statistics (`sum` / `length`).
 *
 * The `User` class itself is not part of this model: its fields are those
 * the managers read and write, and its `valid?` is left uninterpreted as a
 * `ValidityRule` over (name, email, age).
 */
module Users {
  import opened Wrappers
  import opened Text

  /** A clock reading, as `Time.now.strftime(...)` formats it. */
  type Timestamp = string

  /** `User#valid?`, judged on a user's name, email and age. */
  type ValidityRule = (string, string, int) -> bool

  /** What `User#to_hash` gives: a snapshot of a user's attributes. */
  datatype UserRecord = UserRecord(
    id: int,
    name: string,
    email: string,
    age: int,
    createdBy: Option<string>,
    createdAt: Option<Timestamp>,
    updatedAt: Option<Timestamp>)

  /** A stored user; the managers overwrite its name, email, age and updated_at in place. */
  class User {
    const id: int
    var name: string
    var email: string
    var age: int
    const createdBy: Option<string>
    const createdAt: Option<Timestamp>
    var updatedAt: Option<Timestamp>

    constructor (id: int, name: string, email: string, age: int,
                 createdBy: Option<string>, createdAt: Option<Timestamp>, updatedAt: Option<Timestamp>)
      ensures ToHash() == UserRecord(id, name, email, age, createdBy, createdAt, updatedAt)
      ensures this.id == id && this.name == name && this.email == email && this.age == age
    {
      this.id := id;
      this.name := name;
      this.email := email;
      this.age := age;
      this.createdBy := createdBy;
      this.createdAt := createdAt;
      this.updatedAt := updatedAt;
    }

    function ToHash(): UserRecord
      reads this
    {
      UserRecord(id, name, email, age, createdBy, createdAt, updatedAt)
    }

    /** `user.name = name if name`, and likewise for email and age. */
    method Assign(name: Option<string>, email: Option<string>, age: Option<int>)
      modifies this
      ensures ToHash() == Overlay(old(ToHash()), name, email, age)
    {
      if name.Some? { this.name := name.value; }
      if email.Some? { this.email := email.value; }
      if age.Some? { this.age := age.value; }
    }
  }

  /** The record with each given (non-nil) field written over it; the id and the rest stay. */
  function Overlay(r: UserRecord, name: Option<string>, email: Option<string>, age: Option<int>): UserRecord {
    r.(name := name.GetOr(r.name), email := email.GetOr(r.email), age := age.GetOr(r.age))
  }

  /** `users.map(&:to_hash)`: one snapshot per user, in store order. */
  function Hashes(us: seq<User>): (r: seq<UserRecord>)
    reads us
    ensures |r| == |us|
    ensures forall i :: 0 <= i < |us| ==> r[i] == us[i].ToHash()
  {
    if us == [] then [] else [us[0].ToHash()] + Hashes(us[1..])
  }

  /** Every id lies in `lo .. hi - 1`. */
  ghost predicate IdsWithin(us: seq<User>, lo: int, hi: int) {
    forall i :: 0 <= i < |us| ==> lo <= us[i].id < hi
  }

  /** Appending a user whose id is the counter keeps the ids ascending and below the advanced counter. */
  lemma AppendNewest(us: seq<User>, u: User, next: int)
    requires IdsWithin(us, 1, next) && IdsAscending(us) && 1 <= u.id == next
    ensures IdsWithin(us + [u], 1, next + 1) && IdsAscending(us + [u])
  {
  }

  /** Cutting one user out keeps the ids ascending and within bounds. */
  lemma RemoveOne(us: seq<User>, k: nat, next: int)
    requires IdsWithin(us, 1, next) && IdsAscending(us) && k < |us|
    ensures IdsWithin(us[..k] + us[k + 1..], 1, next) && IdsAscending(us[..k] + us[k + 1..])
  {
    var r := us[..k] + us[k + 1..];
    assert forall i :: 0 <= i < |r| ==> r[i] == us[if i < k then i else i + 1];
  }

  /** Ids rise strictly in store order. */
  ghost predicate IdsAscending(us: seq<User>) {
    forall i, j :: 0 <= i < j < |us| ==> us[i].id < us[j].id
  }

  /** Users with distinct ids are distinct objects, so writing to one leaves the others alone. */
  lemma DistinctObjects(us: seq<User>, k: nat)
    requires IdsAscending(us) && k < |us|
    ensures forall j :: 0 <= j < |us| && j != k ==> us[j] != us[k]
  {
    forall j | 0 <= j < |us| && j != k
      ensures us[j] != us[k]
    {
      assert us[j].id != us[k].id;
    }
  }

  /** Appending a user appends its snapshot. */
  lemma HashesAppend(us: seq<User>, u: User)
    ensures Hashes(us + [u]) == Hashes(us) + [u.ToHash()]
  {
    assert forall i :: 0 <= i < |us| ==> (us + [u])[i] == us[i];
  }

  /** The position of the first user whose id is `id`, or None: `find` / `find_index`. */
  function FirstWithId(us: seq<User>, id: int): (r: Option<nat>)
    ensures r.Some? ==> r.value < |us| && us[r.value].id == id
    ensures r.Some? ==> forall j :: 0 <= j < r.value ==> us[j].id != id
    ensures r.None? <==> forall j :: 0 <= j < |us| ==> us[j].id != id
  {
    if us == [] then None
    else if us[0].id == id then Some(0)
    else match FirstWithId(us[1..], id)
      case None => None
      case Some(k) => Some(k + 1)
  }

  /** `users.any? { |u| u.id == id }` */
  predicate AnyWithId(us: seq<User>, id: int)
    ensures AnyWithId(us, id) <==> exists i :: 0 <= i < |us| && us[i].id == id
  {
    us != [] && (us[0].id == id || AnyWithId(us[1..], id))
  }

  /** `any?` and `find` agree: some user has the id exactly when a first one is found. */
  lemma {:induction false} AnyIffFound(us: seq<User>, id: int)
    ensures AnyWithId(us, id) <==> FirstWithId(us, id).Some?
  {
    if us != [] && us[0].id != id {
      AnyIffFound(us[1..], id);
    }
  }

  /** `u.name.downcase.include?(query.downcase)` */
  predicate NameMatches(name: string, query: string) {
    Contains(Downcase(name), Downcase(query))
  }

  /** `a` is `b` with some elements left out, the rest kept in their order. */
  predicate IsSubsequence<T(==)>(a: seq<T>, b: seq<T>) {
    a == [] || (b != [] && ((a[0] == b[0] && IsSubsequence(a[1..], b[1..])) || IsSubsequence(a, b[1..])))
  }

  /** `users.select { |u| u.name.downcase.include?(query.downcase) }` */
  function Select(us: seq<User>, query: string): (r: seq<User>)
    reads us
    ensures forall i :: 0 <= i < |r| ==> r[i] in us && NameMatches(r[i].name, query)
    ensures forall i :: 0 <= i < |us| && NameMatches(us[i].name, query) ==> us[i] in r
    ensures IsSubsequence(r, us)
  {
    if us == [] then []
    else if NameMatches(us[0].name, query) then [us[0]] + Select(us[1..], query)
    else Select(us[1..], query)
  }

  /** Taking snapshots keeps a subsequence a subsequence. */
  lemma {:induction false} SubsequenceHashes(a: seq<User>, b: seq<User>)
    requires IsSubsequence(a, b)
    ensures IsSubsequence(Hashes(a), Hashes(b))
    decreases |b|
  {
    if a != [] {
      if a[0] == b[0] && IsSubsequence(a[1..], b[1..]) {
        SubsequenceHashes(a[1..], b[1..]);
        assert Hashes(a)[1..] == Hashes(a[1..]);
        assert Hashes(b)[1..] == Hashes(b[1..]);
      } else {
        SubsequenceHashes(a, b[1..]);
        assert Hashes(b)[1..] == Hashes(b[1..]);
      }
    }
  }

  /** Every element of a subsequence comes from the sequence. */
  lemma {:induction false} SubsequenceMembers<T>(a: seq<T>, b: seq<T>, x: T)
    requires IsSubsequence(a, b) && x in a
    ensures x in b
    decreases |b|
  {
    if a[0] == b[0] && IsSubsequence(a[1..], b[1..]) {
      if x != a[0] {
        SubsequenceMembers(a[1..], b[1..], x);
      }
    } else {
      SubsequenceMembers(a, b[1..], x);
    }
  }

  /**
   * On a store whose ids ascend (so no user is stored twice), the three
   * properties of `Select` pin its result down: a list of matching users
   * that holds every matching stored user and keeps store order is exactly
   * what `select` returns.
   */
  lemma {:induction false} SelectUnique(us: seq<User>, query: string, r: seq<User>)
    requires IdsAscending(us)
    requires forall i :: 0 <= i < |r| ==> NameMatches(r[i].name, query)
    requires forall i :: 0 <= i < |us| && NameMatches(us[i].name, query) ==> us[i] in r
    requires IsSubsequence(r, us)
    ensures r == Select(us, query)
    decreases |us|
  {
    if us != [] {
      var x, rest := us[0], us[1..];
      assert IdsAscending(rest) by {
        forall i, j | 0 <= i < j < |rest| ensures rest[i].id < rest[j].id {
          assert rest[i] == us[i + 1] && rest[j] == us[j + 1];
        }
      }
      forall i | 0 <= i < |rest| ensures rest[i] != x {
        assert rest[i] == us[i + 1];
      }
      if NameMatches(x.name, query) {
        assert us[0] in r;
        if r[0] == x && IsSubsequence(r[1..], rest) {
          forall i | 0 <= i < |rest| && NameMatches(rest[i].name, query) ensures rest[i] in r[1..] {
            assert rest[i] == us[i + 1];
          }
          forall i | 0 <= i < |r[1..]| ensures NameMatches(r[1..][i].name, query) {
            assert r[1..][i] == r[i + 1];
          }
          SelectUnique(rest, query, r[1..]);
          assert r == [r[0]] + r[1..];
        } else {
          SubsequenceMembers(r, rest, x);
          assert false;
        }
      } else {
        assert r == [] || r[0] != x;
        forall i | 0 <= i < |rest| && NameMatches(rest[i].name, query) ensures rest[i] in r {
          assert rest[i] == us[i + 1];
        }
        SelectUnique(rest, query, r);
      }
    }
  }

  /** `users.sum(&:age)` */
  function SumAges(rs: seq<UserRecord>): int {
    if rs == [] then 0 else rs[0].age + SumAges(rs[1..])
  }

  /** The statistics both managers report: the number of users and their mean age. */
  datatype Stats = Stats(total: nat, averageAge: real)

  /** `total > 0 ? sum / total.to_f : 0`, with exact division in place of floating point. */
  function StatsOf(rs: seq<UserRecord>): (s: Stats)
    ensures s.total == |rs|
    ensures s.total == 0 ==> s.averageAge == 0.0
    ensures s.total > 0 ==> s.averageAge * (s.total as real) == SumAges(rs) as real
  {
    var total := |rs|;
    Stats(total, if total > 0 then SumAges(rs) as real / total as real else 0.0)
  }

  /** Each age within `lo..hi` puts the sum within `|rs| * lo .. |rs| * hi`. */
  lemma {:induction false} SumAgesBounds(rs: seq<UserRecord>, lo: int, hi: int)
    requires forall i :: 0 <= i < |rs| ==> lo <= rs[i].age <= hi
    ensures |rs| * lo <= SumAges(rs) <= |rs| * hi
  {
    if rs != [] {
      SumAgesBounds(rs[1..], lo, hi);
    }
  }

  /**
   * With every age inside the users table's CHECK range (0 < age < 150),
   * the mean age of a non-empty store lies inside it too.
   */
  lemma AverageWithinAgeRange(rs: seq<UserRecord>)
    requires rs != []
    requires forall i :: 0 <= i < |rs| ==> 0 < rs[i].age < 150
    ensures 1.0 <= StatsOf(rs).averageAge <= 149.0
  {
    SumAgesBounds(rs, 1, 149);
    var n := |rs| as real;
    var sum := SumAges(rs) as real;
    assert n <= sum <= 149.0 * n;
    QuotientBounds(sum, n, 1.0, 149.0);
  }

  lemma QuotientBounds(sum: real, n: real, lo: real, hi: real)
    requires n > 0.0 && lo * n <= sum <= hi * n
    ensures lo <= sum / n <= hi
  {
    var q := sum / n;
    assert q * n == sum;
    if q < lo {
      ScaleStrict(q, lo, n);
    } else if q > hi {
      ScaleStrict(hi, q, n);
    }
  }

  lemma ScaleStrict(a: real, b: real, n: real)
    requires a < b && n > 0.0
    ensures a * n < b * n
  {
  }
}
