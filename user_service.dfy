/**
 * The database-backed `UserService`: the guards that decide whether a
 * statement is sent to `Database.execute` at all, the statements it sends,
 * and the assembly of the UPDATE query with its numbered `$n` placeholders.
 *
 * `Database.execute` itself is not part of this model. The owner-scoped
 * lookup `get_user_by_id(id, created_by)` that guards update and delete is an
 * input here (`existing`), and each operation yields the statement it would
 * hand to `execute`, or the answer it gives without one.
 */
module UserService {
  import opened Wrappers
  import opened Text
  import opened Users

  /** A positional parameter of a query. */
  datatype Param = Str(text: string) | Int(value: int)

  /** A query and its positional parameters, as passed to `Database.execute`. */
  datatype Statement = Statement(sql: string, params: seq<Param>)

  // ---------------------------------------------------------------------------
  // Rendering `$n` and the fixed pieces of SQL

  function DigitChar(d: nat): char
    requires d < 10
  {
    ('0' as int + d) as char
  }

  /** `n.to_s`: the decimal digits of `n`, most significant first. */
  function Decimal(n: nat): (s: string)
    ensures |s| > 0 && forall i :: 0 <= i < |s| ==> '0' <= s[i] <= '9'
  {
    if n < 10 then [DigitChar(n)] else Decimal(n / 10) + [DigitChar(n % 10)]
  }

  /** The number a string of decimal digits denotes. */
  function DecimalValue(s: string): nat
    requires forall i :: 0 <= i < |s| ==> '0' <= s[i] <= '9'
  {
    if s == [] then 0 else DecimalValue(s[..|s| - 1]) * 10 + (s[|s| - 1] as int - '0' as int)
  }

  /** Reading back `$n` gives `n`: distinct placeholders are written distinctly. */
  lemma {:induction false} DecimalRoundTrip(n: nat)
    ensures DecimalValue(Decimal(n)) == n
  {
    var s := Decimal(n);
    if n >= 10 {
      DecimalRoundTrip(n / 10);
      assert s[..|s| - 1] == Decimal(n / 10);
      assert s[|s| - 1] as int - '0' as int == n % 10;
    }
  }

  /** `"$#{n}"`: a dollar sign followed by the digits that read back as `n`. */
  function Placeholder(n: nat): (s: string)
    ensures |s| >= 2 && s[0] == '$'
    ensures forall i :: 1 <= i < |s| ==> '0' <= s[i] <= '9'
    ensures DecimalValue(s[1..]) == n
  {
    DecimalRoundTrip(n);
    assert ("$" + Decimal(n))[1..] == Decimal(n);
    "$" + Decimal(n)
  }

  // ---------------------------------------------------------------------------
  // create_user and delete_user: the guards in front of `Database.execute`

  /** The INSERT of `create_user`, owner in the fourth placeholder. */
  const InsertSql := "INSERT INTO users (name, email, age, created_by) VALUES ($1, $2, $3, $4) RETURNING id, created_at"

  /** The DELETE of `delete_user`, scoped by id and owner. */
  const DeleteSql := "DELETE FROM users WHERE id = $1 AND created_by = $2"

  /**
   * An invalid user is refused (nil) before anything is sent; a valid one
   * becomes one INSERT whose four placeholders take name, email, age and
   * owner in that order.
   */
  function CreateUser(name: string, email: string, age: int, createdBy: int, isValid: ValidityRule)
    : (r: Option<Statement>)
    ensures r.None? <==> !isValid(name, email, age)
    ensures r.Some? ==> r.value.sql == InsertSql && |r.value.params| == 4
    ensures r.Some? ==> r.value.params == [Str(name), Str(email), Int(age), Int(createdBy)]
  {
    if !isValid(name, email, age) then None
    else Some(Statement(InsertSql, [Str(name), Str(email), Int(age), Int(createdBy)]))
  }

  /**
   * When the owner-scoped lookup finds nothing, false comes back and no
   * DELETE is sent; otherwise one DELETE scoped by both id and owner.
   */
  function DeleteUser(id: int, createdBy: int, existing: Option<UserRecord>): (r: Option<Statement>)
    ensures r.None? <==> existing.None?
    ensures r.Some? ==> r.value == Statement(DeleteSql, [Int(id), Int(createdBy)])
  {
    if existing.None? then None else Some(Statement(DeleteSql, [Int(id), Int(createdBy)]))
  }

  // ---------------------------------------------------------------------------
  // update_user: the SET list, the parameters and the placeholders

  datatype Column = Name | Email | Age

  /** One entry of the SET list: `column = $n`, or the update-time stamp. */
  datatype SetClause = SetColumn(column: Column, placeholder: nat) | TouchUpdatedAt

  /** The column each field is written to. */
  function ColumnName(c: Column): string {
    match c
    case Name => "name"
    case Email => "email"
    case Age => "age"
  }

  function ClauseSql(c: SetClause): string {
    match c
    case SetColumn(col, n) => ColumnName(col) + " = " + Placeholder(n)
    case TouchUpdatedAt => "updated_at = CURRENT_TIMESTAMP"
  }

  /** `updates.join(', ')` */
  function JoinClauses(cs: seq<SetClause>): string {
    if cs == [] then ""
    else if |cs| == 1 then ClauseSql(cs[0])
    else ClauseSql(cs[0]) + ", " + JoinClauses(cs[1..])
  }

  /** The UPDATE text, with the SET list and the placeholder number used for `id`. */
  function UpdateSql(sets: seq<SetClause>, whereIndex: nat): string {
    "UPDATE users SET " + JoinClauses(sets)
      + " WHERE id = " + Placeholder(whereIndex)
      + " AND created_by = " + Placeholder(whereIndex + 1)
      + " RETURNING id, name, email, age, updated_at"
  }

  /** The columns given a new value, in the order name, email, age. */
  function Columns(hasName: bool, hasEmail: bool, hasAge: bool): seq<Column> {
    (if hasName then [Name] else []) + (if hasEmail then [Email] else []) + (if hasAge then [Age] else [])
  }

  /** The value a given field contributes, or None when the field is nil. */
  function FieldValue(c: Column, name: Option<string>, email: Option<string>, age: Option<int>): Option<Param> {
    match c
    case Name => if name.Some? then Some(Str(name.value)) else None
    case Email => if email.Some? then Some(Str(email.value)) else None
    case Age => if age.Some? then Some(Int(age.value)) else None
  }

  /** The parameters of the given fields, in the order name, email, age. */
  function GivenValues(name: Option<string>, email: Option<string>, age: Option<int>): seq<Param> {
    (if name.Some? then [Str(name.value)] else [])
      + (if email.Some? then [Str(email.value)] else [])
      + (if age.Some? then [Int(age.value)] else [])
  }

  /** The reference SET list: the k-th given column gets `$k`, then the update-time stamp. */
  function SetClauses(hasName: bool, hasEmail: bool, hasAge: bool): (r: seq<SetClause>)
    ensures |r| == |Columns(hasName, hasEmail, hasAge)| + 1
  {
    AssignClauses(Columns(hasName, hasEmail, hasAge)) + [TouchUpdatedAt]
  }

  /** `column = $k` for the k-th of the columns, counting from 1. */
  function AssignClauses(cols: seq<Column>): (r: seq<SetClause>)
    ensures |r| == |cols|
    ensures forall i :: 0 <= i < |cols| ==> r[i] == SetColumn(cols[i], i + 1)
  {
    seq(|cols|, i requires 0 <= i < |cols| => SetColumn(cols[i], i + 1))
  }

  lemma AppendAssign(cols: seq<Column>, c: Column)
    ensures AssignClauses(cols + [c]) == AssignClauses(cols) + [SetColumn(c, |cols| + 1)]
  {
    assert forall i :: 0 <= i < |cols| + 1 ==> AssignClauses(cols + [c])[i] == (AssignClauses(cols) + [SetColumn(c, |cols| + 1)])[i];
  }

  /** The UPDATE text for a choice of given fields; it mentions no value of any field. */
  function UpdateSqlFor(hasName: bool, hasEmail: bool, hasAge: bool): string {
    UpdateSql(SetClauses(hasName, hasEmail, hasAge), |Columns(hasName, hasEmail, hasAge)| + 1)
  }

  /** What `update_user` does: answer without a query, or send one UPDATE. */
  datatype UpdateOutcome =
    | NoSuchUser                          // the scoped lookup failed: nil
    | NothingToUpdate(user: UserRecord)   // no field given: the existing user, unchanged
    | Execute(statement: Statement)

  /**
   * Collects the SET list the way the code does: each given field, in the
   * order name, email, age, appends `column = $k` and its value and
   * advances the counter, which ends one past the last placeholder used.
   */
  method CollectUpdates(name: Option<string>, email: Option<string>, age: Option<int>)
    returns (updates: seq<SetClause>, params: seq<Param>, paramIndex: nat)
    ensures updates == AssignClauses(Columns(name.Some?, email.Some?, age.Some?))
    ensures params == GivenValues(name, email, age)
    ensures paramIndex == |updates| + 1
  {
    updates, params, paramIndex := [], [], 1;
    ghost var cols: seq<Column> := [];
    if name.Some? {
      AppendAssign(cols, Name);
      updates := updates + [SetColumn(Name, paramIndex)];
      params := params + [Str(name.value)];
      paramIndex := paramIndex + 1;
      cols := cols + [Name];
    }
    assert cols == Columns(name.Some?, false, false) && params == GivenValues(name, None, None);
    if email.Some? {
      AppendAssign(cols, Email);
      updates := updates + [SetColumn(Email, paramIndex)];
      params := params + [Str(email.value)];
      paramIndex := paramIndex + 1;
      cols := cols + [Email];
    }
    assert cols == Columns(name.Some?, email.Some?, false) && params == GivenValues(name, email, None);
    if age.Some? {
      AppendAssign(cols, Age);
      updates := updates + [SetColumn(Age, paramIndex)];
      params := params + [Int(age.value)];
      paramIndex := paramIndex + 1;
      cols := cols + [Age];
    }
    assert cols == Columns(name.Some?, email.Some?, age.Some?);
  }

  /**
   * `update_user`: nil when the scoped lookup fails; the existing user,
   * unchanged, when no field is given; otherwise one UPDATE whose text
   * depends only on which fields are given, with the given values followed
   * by `id` and `created_by` as its parameters.
   */
  method UpdateUser(id: int, createdBy: int, existing: Option<UserRecord>,
                    name: Option<string>, email: Option<string>, age: Option<int>)
    returns (outcome: UpdateOutcome)
    ensures existing.None? ==> outcome == NoSuchUser
    ensures existing.Some? && name.None? && email.None? && age.None? ==>
      outcome == NothingToUpdate(existing.value)
    ensures existing.Some? && (name.Some? || email.Some? || age.Some?) ==>
      && outcome.Execute?
      && outcome.statement.sql == UpdateSqlFor(name.Some?, email.Some?, age.Some?)
      && outcome.statement.params == GivenValues(name, email, age) + [Int(id), Int(createdBy)]
  {
    if existing.None? {
      return NoSuchUser;
    }
    var updates, params, paramIndex := CollectUpdates(name, email, age);
    if updates == [] {
      return NothingToUpdate(existing.value);
    }
    updates := updates + [TouchUpdatedAt];
    params := params + [Int(id), Int(createdBy)];
    var query := UpdateSql(updates, paramIndex);
    outcome := Execute(Statement(query, params));
  }

  /**
   * The numbering of the reference SET list: the k-th clause assigns the
   * k-th given column to `$k`, and `$k` is the k-th parameter, holding that
   * column's value; the stamp comes last; and the WHERE placeholders that
   * follow address `id` and `created_by`, the last two parameters.
   */
  lemma PlaceholderBinding(id: int, createdBy: int, name: Option<string>, email: Option<string>, age: Option<int>)
    ensures
      var sets := SetClauses(name.Some?, email.Some?, age.Some?);
      var params := GivenValues(name, email, age) + [Int(id), Int(createdBy)];
      var n := |sets| - 1;
      && |params| == n + 2
      && sets[n] == TouchUpdatedAt
      && (forall k :: 0 <= k < n ==>
            sets[k].SetColumn? && sets[k].placeholder == k + 1
            && Some(params[sets[k].placeholder - 1]) == FieldValue(sets[k].column, name, email, age))
      && params[n] == Int(id) && params[n + 1] == Int(createdBy)
  {
    var cols := Columns(name.Some?, email.Some?, age.Some?);
    var given := GivenValues(name, email, age);
    assert |given| == |cols|;
    forall k | 0 <= k < |cols|
      ensures Some(given[k]) == FieldValue(cols[k], name, email, age)
    {
    }
  }

  /** The columns appear once each, in the order name, email, age, and exactly the given ones. */
  lemma ColumnsInOrder(hasName: bool, hasEmail: bool, hasAge: bool)
    ensures var cols := Columns(hasName, hasEmail, hasAge);
      && (Name in cols <==> hasName) && (Email in cols <==> hasEmail) && (Age in cols <==> hasAge)
      && forall i, j :: 0 <= i < j < |cols| ==> Rank(cols[i]) < Rank(cols[j])
  {
  }

  function Rank(c: Column): nat {
    match c
    case Name => 0
    case Email => 1
    case Age => 2
  }

  /** Every placeholder number `$1 .. $(params)` is used, and no other. */
  lemma PlaceholdersCoverParams(hasName: bool, hasEmail: bool, hasAge: bool)
    ensures PlaceholdersOneTo(SetClauses(hasName, hasEmail, hasAge), |Columns(hasName, hasEmail, hasAge)| + 1)
  {
    var sets := SetClauses(hasName, hasEmail, hasAge);
    var n := |sets| - 1;
    var w := n + 1;
    forall p: int
      ensures UsesPlaceholder(sets, w, p) <==> 1 <= p <= w + 1
    {
      if 1 <= p <= n {
        assert sets[p - 1].SetColumn? && sets[p - 1].placeholder == p;
      }
      if UsesPlaceholder(sets, w, p) && p != w && p != w + 1 {
        var k :| 0 <= k < |sets| && sets[k].SetColumn? && sets[k].placeholder == p;
        assert k < n;
      }
    }
  }

  /** The placeholders an UPDATE mentions are exactly `$1 .. $(whereIndex + 1)`. */
  ghost predicate PlaceholdersOneTo(sets: seq<SetClause>, whereIndex: nat) {
    forall p: int :: UsesPlaceholder(sets, whereIndex, p) <==> 1 <= p <= whereIndex + 1
  }

  /** The UPDATE mentions `$p`: in its SET list, or as one of the WHERE pair. */
  predicate UsesPlaceholder(sets: seq<SetClause>, whereIndex: nat, p: int) {
    p == whereIndex || p == whereIndex + 1
      || exists k :: 0 <= k < |sets| && sets[k].SetColumn? && sets[k].placeholder == p
  }

  // ---------------------------------------------------------------------------
  // search_users_by_name: the ILIKE pattern

  /** `"%#{name}%"`: the query between two `%`, with nothing in it escaped. */
  function SearchPattern(name: string): string {
    "%" + name + "%"
  }

  /**
   * PostgreSQL's LIKE: `%` matches any run of characters, `_` any one
   * character, a backslash makes the next character literal, and any other
   * character matches itself.
   */
  predicate Like(p: string, s: string)
    decreases |p| + |s|
  {
    if p == [] then s == []
    else if p[0] == '%' then Like(p[1..], s) || (s != [] && Like(p, s[1..]))
    else if p[0] == '_' then s != [] && Like(p[1..], s[1..])
    else if p[0] == '\\' then |p| >= 2 && s != [] && s[0] == p[1] && Like(p[2..], s[1..])
    else s != [] && s[0] == p[0] && Like(p[1..], s[1..])
  }

  /** ILIKE: LIKE after downcasing both sides. */
  predicate ILike(p: string, s: string) {
    Like(Downcase(p), Downcase(s))
  }

  /** No character LIKE treats specially. */
  predicate Literal(q: string) {
    forall i :: 0 <= i < |q| ==> q[i] != '%' && q[i] != '_' && q[i] != '\\'
  }

  /** A trailing `%` matches every string. */
  lemma {:induction false} PercentMatchesAll(s: string)
    ensures Like("%", s)
    decreases |s|
  {
    if s != [] {
      PercentMatchesAll(s[1..]);
    }
  }

  /** A literal followed by `%` matches exactly the strings the literal starts. */
  lemma {:induction false} LiteralThenPercent(q: string, s: string)
    requires Literal(q)
    ensures Like(q + "%", s) <==> |q| <= |s| && s[..|q|] == q
    decreases |q|
  {
    if q == [] {
      assert q + "%" == "%";
      PercentMatchesAll(s);
    } else {
      assert (q + "%")[1..] == q[1..] + "%";
      LiteralThenPercent(q[1..], if s == [] then s else s[1..]);
      if s != [] && |q| <= |s| && s[..|q|] == q {
        assert s[1..][..|q| - 1] == q[1..];
      }
      if s != [] && s[0] == q[0] && |q[1..]| <= |s[1..]| && s[1..][..|q[1..]|] == q[1..] {
        assert s[..|q|] == [s[0]] + s[1..][..|q[1..]|];
      }
    }
  }

  /** With a literal query, the search pattern matches exactly the strings containing it. */
  lemma {:induction false} PatternMeansContains(q: string, s: string)
    requires Literal(q)
    ensures Like(SearchPattern(q), s) <==> Contains(s, q)
    decreases |s|
  {
    assert SearchPattern(q)[1..] == q + "%";
    LiteralThenPercent(q, s);
    if s != [] {
      PatternMeansContains(q, s[1..]);
    }
  }

  /**
   * For a query free of `%`, `_` and backslashes, the database search
   * selects the same names as the in-memory managers' case-insensitive
   * substring test.
   */
  lemma ILikeAgreesWithNameMatch(q: string, name: string)
    requires Literal(q)
    ensures ILike(SearchPattern(q), name) <==> NameMatches(name, q)
  {
    var lq := Downcase(q);
    assert Literal(lq) by {
      forall i | 0 <= i < |lq| ensures lq[i] != '%' && lq[i] != '_' && lq[i] != '\\' {
        assert lq[i] == LowerChar(q[i]);
      }
    }
    assert Downcase(SearchPattern(q)) == SearchPattern(lq);
    PatternMeansContains(lq, Downcase(name));
  }

  /** Because nothing is escaped, `_` in a query is a wildcard: searching "_" finds "a". */
  lemma UnderscoreIsWildcard()
    ensures ILike(SearchPattern("_"), "a") && !NameMatches("a", "_")
  {
    assert Downcase(SearchPattern("_")) == "%_%";
    assert Like("%", []);
    assert Like("_%", "a");
    assert Like("%_%", "a");
    assert Downcase("a") == "a" && Downcase("_") == "_";
    assert !Contains("", "_");
  }
}
