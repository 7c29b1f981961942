/**
 * An account of the authentication layer: its well-formedness test
 * (`valid?`) and the hash it is shown as (`to_hash`), which leaves the
 * password hash out. Any attribute may be nil.
 */
module AuthUsers {
  import opened Wrappers
  import opened Text
  import opened Users

  datatype AuthUser = AuthUser(
    id: Option<int>,
    username: Option<string>,
    email: Option<string>,
    passwordHash: Option<string>,
    createdAt: Option<Timestamp>,
    updatedAt: Option<Timestamp>)

  /** `valid?`: the username, email and password-hash clauses, each tested left to right. */
  predicate IsValid(u: AuthUser) {
    && u.username.Some? && u.username.value != [] && |u.username.value| >= 3
    && u.email.Some? && u.email.value != [] && Contains(u.email.value, "@")
    && u.passwordHash.Some? && u.passwordHash.value != []
  }

  /**
   * `valid?` holds exactly when the username has at least three characters,
   * the email has an '@' somewhere, and a non-empty password hash is present.
   */
  lemma ValidIff(u: AuthUser)
    ensures IsValid(u) <==>
      && u.username.Some? && |u.username.value| >= 3
      && u.email.Some? && (exists i :: 0 <= i < |u.email.value| && u.email.value[i] == '@')
      && u.passwordHash.Some? && |u.passwordHash.value| > 0
  {
    if u.email.Some? {
      HasAtIff(u.email.value);
    }
  }

  /** `email.include?('@')` finds an '@' exactly when one occurs. */
  lemma HasAtIff(e: string)
    ensures Contains(e, "@") <==> exists i :: 0 <= i < |e| && e[i] == '@'
  {
    ContainsIffOccurs(e, "@");
    if exists i :: 0 <= i < |e| && e[i] == '@' {
      var i :| 0 <= i < |e| && e[i] == '@';
      assert OccursAt(e, "@", i);
    }
    if Contains(e, "@") {
      var i :| OccursAt(e, "@", i);
      assert e[i] == e[i..i + 1][0] == '@';
    }
  }

  /** A nil username, or one shorter than three characters, makes the account invalid. */
  lemma ShortUsernameInvalid(u: AuthUser)
    requires u.username.None? || |u.username.value| < 3
    ensures !IsValid(u)
  {
  }

  /**
   * Three characters are enough for the username clause: any account whose
   * username has exactly three characters, whose email has an '@' and whose
   * password hash is non-empty is valid.
   */
  lemma ThreeCharUsernameAccepted(u: AuthUser)
    requires u.username.Some? && |u.username.value| == 3
    requires u.email.Some? && exists i :: 0 <= i < |u.email.value| && u.email.value[i] == '@'
    requires u.passwordHash.Some? && u.passwordHash.value != []
    ensures IsValid(u)
  {
    ValidIff(u);
  }

  /** An email without '@' (or none at all) makes the account invalid. */
  lemma EmailWithoutAtInvalid(u: AuthUser)
    requires u.email.None? || forall i :: 0 <= i < |u.email.value| ==> u.email.value[i] != '@'
    ensures !IsValid(u)
  {
    ValidIff(u);
  }

  /** A nil or empty password hash makes the account invalid. */
  lemma MissingHashInvalid(u: AuthUser)
    requires u.passwordHash.None? || u.passwordHash.value == []
    ensures !IsValid(u)
  {
  }

  /** The attribute names a hash of an account can carry. */
  datatype Key = Id | Username | Email | PasswordHash | CreatedAt | UpdatedAt

  /** An attribute's value: nil, an integer or a string. */
  datatype Value = Nil | Int(i: int) | Str(s: string)

  function IntValue(o: Option<int>): Value {
    if o.Some? then Int(o.value) else Nil
  }

  function StrValue(o: Option<string>): Value {
    if o.Some? then Str(o.value) else Nil
  }

  function AsInt(v: Value): Option<int> {
    if v.Int? then Some(v.i) else None
  }

  function AsStr(v: Value): Option<string> {
    if v.Str? then Some(v.s) else None
  }

  /** `to_hash`: id, username, email and the two times; never the password hash. */
  function ToHash(u: AuthUser): (h: map<Key, Value>)
    ensures PasswordHash !in h
    ensures h.Keys == {Id, Username, Email, CreatedAt, UpdatedAt}
  {
    map[Id := IntValue(u.id), Username := StrValue(u.username), Email := StrValue(u.email),
        CreatedAt := StrValue(u.createdAt), UpdatedAt := StrValue(u.updatedAt)]
  }

  /** Reads an account back from its hash, given the password hash the hash left out. */
  function FromHash(h: map<Key, Value>, passwordHash: Option<string>): AuthUser
    requires {Id, Username, Email, CreatedAt, UpdatedAt} <= h.Keys
  {
    AuthUser(AsInt(h[Id]), AsStr(h[Username]), AsStr(h[Email]), passwordHash,
             AsStr(h[CreatedAt]), AsStr(h[UpdatedAt]))
  }

  /** The hash carries every other attribute unchanged: only the password hash is lost. */
  lemma ToHashLosesOnlyPasswordHash(u: AuthUser)
    ensures FromHash(ToHash(u), u.passwordHash) == u
  {
  }
}
