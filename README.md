# RubyCrud user store, modelled in Dafny

RubyCrud manages user records (name, email, age) in three ways:

- A terminal front end keeps them in an in-memory `UserManager`: a list of `User` objects and a counter that hands out ids.
- A Sinatra API keeps them in a second `UserManager` with the same operations. It answers with a `{success, error/message, data}` envelope and stamps records with their owner and times.
- A database-backed `UserService` turns the same operations into SQL statements with numbered `$n` placeholders, scoped by owner.

Beside the stores sit two credential predicates:

- `AuthUser#valid?`, with its `to_hash` projection, which drops the password hash;
- `PasswordHelper.password_strong?`.

This project models:

- both in-memory managers, as Dafny classes over a `seq<User>` and an id counter. Users are objects, so an update writes into the stored user in place, as the Ruby code does.
- the guards and statement building of `UserService`, including the assembly of the UPDATE query and its placeholder numbering, and the `ILIKE` search pattern;
- the two credential predicates, as pure functions.

It proves:

- the invariants the stores keep: ids start at 1, stay below the counter and rise in store order, so no two stored users share an id or an object;
- each operation's exact new state and result;
- the relations between operations, such as `user_exists?` against `read_user_by_id`;
- the index bookkeeping of the UPDATE builder.

Files and modules:

- `wrappers.dfy` (`Wrappers`): `Option`, which stands for Ruby's nil.
- `text.dfy` (`Text`): ASCII `downcase` and `include?` on strings.
- `users.dfy` (`Users`):
  - the `User` object and its `to_hash` snapshot (`UserRecord`);
  - the lookups (`find`, `find_index`, `any?`, `select`);
  - statistics.
- `cli_user_manager.dfy` (`CliUserManager`): the terminal `UserManager`.
- `api_user_manager.dfy` (`ApiUserManager`): the API `UserManager` and its reply envelope.
- `user_service.dfy` (`UserService`): the database-backed service.
- `auth_user.dfy` (`AuthUsers`): `AuthUser#valid?` and `to_hash`.
- `password_helper.dfy` (`PasswordHelper`): `password_strong?`.

The `User` class is required by both managers, but its body is not part of this model. So `User#valid?` is a function value `isValid(name, email, age)` that each manager holds and never inspects. Nothing is assumed about it. The one table constraint this model uses is `CHECK (age > 0 AND age < 150)` (services/database_service.rb:201). It appears only as the hypothesis of `Users.AverageWithinAgeRange`. The same table's `NOT NULL` and `VARCHAR(100)` limits on name and email (services/database_service.rb:199-200) are not modelled.

Three points where the code is followed as written:

- No rollback: both managers write the new fields before calling `valid?` and never restore them when it fails. The API manager also writes the update time first. The update contracts state that the writes stay, with or without a failed `valid?`.
- No owner filtering: neither in-memory manager filters by owner. The API manager stores `created_by`, and every snapshot carries it, but no operation filters on it.
- Wildcards in searches: the database search pattern escapes nothing, so `%` and `_` in a query are wildcards. `UserService.UnderscoreIsWildcard` exhibits a query on which the database search and the in-memory search disagree.

## Model

| member | source | states |
|---|---|---|
| Users.User.constructor | models/user.rb:19-27 | a new user's snapshot holds exactly the id, name, email, age, owner and times it was built with |
| Users.User.Assign | managers/user_manager.rb:58-60 | each of name, email, age is overwritten when given and kept when nil; id, owner and times never change |
| Users.User.ToHash | models/user.rb:35 | the `to_hash` snapshot of a user's seven attributes; what it holds after each operation is fixed by the constructor's and `Assign`'s contracts |
| Users.Hashes | models/user.rb:44 | `users.map(&:to_hash)`: one snapshot per user, same length, same order |
| Users.FirstWithId | managers/user_manager.rb:40 | `find`: the position of a user with the id, with no earlier user having it; none exactly when no user has the id |
| Users.AnyWithId | managers/user_manager.rb:118 | `any?`: holds exactly when some user has the id |
| Users.AnyIffFound | managers/user_manager.rb:117-119 | `any?` holds exactly when `find` finds a user |
| Users.AppendNewest | managers/user_manager.rb:18-19 | appending a user carrying the counter's id keeps ids ascending and below the advanced counter |
| Users.RemoveOne | managers/user_manager.rb:80 | `delete_at` keeps the ids ascending and below the counter |
| Users.DistinctObjects | managers/user_manager.rb:51-60 | users with ascending ids are distinct objects, so writing to one leaves every other untouched |
| Users.NameMatches | managers/user_manager.rb:87 | the search test `name.downcase.include?(query.downcase)`; `ILikeAgreesWithNameMatch` relates it to the database search |
| Users.Select | managers/user_manager.rb:87 | `select`: keeps exactly the stored users whose downcased name contains the downcased query, as a subsequence of the store |
| Users.SelectUnique | managers/user_manager.rb:87 | on a store whose ids ascend, any list of matching users that holds every matching stored user, in store order, is exactly the `select` result |
| Users.SubsequenceMembers | managers/user_manager.rb:87 | every element of a subsequence comes from the sequence |
| Users.SubsequenceHashes | models/user.rb:99 | snapshots of a subsequence of users form a subsequence of the store's snapshots |
| Users.SumAges | managers/user_manager.rb:102 | `users.sum(&:age)`; its bounds are stated by `SumAgesBounds` |
| Users.StatsOf | managers/user_manager.rb:101-102 | total is the number of users; the average is 0 for none, else its product with the total is the sum of ages |
| Users.SumAgesBounds | managers/user_manager.rb:102 | ages within `lo..hi` put the sum within `n*lo .. n*hi` |
| Users.AverageWithinAgeRange | services/database_service.rb:201 | with every age inside the table's CHECK range, the mean age of a non-empty store lies in `1 .. 149` |
| Text.Downcase | managers/user_manager.rb:87 | ASCII `downcase`: the same length, each capital `A`..`Z` turned into its lowercase letter (code point + 32), every other character kept |
| Text.Contains | managers/user_manager.rb:87 | `include?` as a left-to-right scan; `ContainsIffOccurs` states its meaning |
| Text.ContainsIffOccurs | managers/user_manager.rb:87 | `include?` holds exactly when the pattern occurs at some position |
| Text.EmptyIsContained | managers/user_manager.rb:87 | the empty query is contained in every name, so it selects every user |
| CliUserManager.UserManager.constructor | managers/user_manager.rb:4-7 | an empty store with the counter at 1 |
| CliUserManager.UserManager.Push | managers/user_manager.rb:18-19 | `@users << user; @next_id += 1`: appends exactly that user, advances the counter by one, keeps the store invariant |
| CliUserManager.UserManager.CreateUser | managers/user_manager.rb:10-22 | invalid: null, store and counter unchanged; valid: a fresh user with the old counter as id is appended, the counter advances by one, and the snapshots gain exactly its snapshot |
| CliUserManager.UserManager.ReadAllUsers | managers/user_manager.rb:25-36 | the stored list itself, `[]` when empty |
| CliUserManager.UserManager.ReadUserById | managers/user_manager.rb:39-47 | null exactly when no user has the id; otherwise the first stored user with it |
| CliUserManager.UserManager.UpdateUser | managers/user_manager.rb:50-69 | absent id: null, nothing changes; present: only the first match's given fields are overwritten, every other snapshot unchanged, the user returned exactly when it is still valid, and the writes stay when it is not |
| CliUserManager.UserManager.DeleteUser | managers/user_manager.rb:72-83 | true exactly when some user has the id; then the first match is cut out, the rest keep their order, the counter is untouched; else nothing changes |
| CliUserManager.UserManager.SearchUsersByName | managers/user_manager.rb:86-97 | exactly the stored users whose downcased name contains the downcased query, in store order |
| CliUserManager.UserManager.GetStats | managers/user_manager.rb:100-109 | total equals the store size; average 0 when empty, else sum of ages over the count |
| CliUserManager.UserManager.ExportUsers | managers/user_manager.rb:112-114 | one snapshot per user, same length and order |
| CliUserManager.UserManager.UserExists | managers/user_manager.rb:117-119 | holds exactly when some stored user has the id |
| CliUserManager.UserManager.ExistsIffReadable | managers/user_manager.rb:117-119 | `user_exists?(id)` holds exactly when `read_user_by_id(id)` is not null |
| ApiUserManager.UserManager.constructor | models/user.rb:10-13 | an empty store with the counter at 1 |
| ApiUserManager.UserManager.Push | models/user.rb:33-34 | appends exactly that user, advances the counter by one, keeps the store invariant |
| ApiUserManager.UserManager.CreateUser | models/user.rb:16-36 | invalid: an invalid-user error, store and counter unchanged; valid: success with the snapshot (old counter as id, the owner, `"system"` when none is given, created and updated at the same `now`), one fresh user appended, snapshots extended by exactly it, counter advanced |
| ApiUserManager.UserManager.ReadAllUsers | models/user.rb:39-46 | `count` equals the store size and `data` is every snapshot in store order, with no owner filter |
| ApiUserManager.UserManager.ReadUserById | models/user.rb:49-56 | a not-found error exactly when no user has the id; otherwise the snapshot of the first match |
| ApiUserManager.UserManager.UpdateUser | models/user.rb:59-77 | absent id: not-found, nothing changes; present: the first match's given fields and its update time are written, nothing else changes, and the reply is its new snapshot when valid, an invalid-update error otherwise, with the writes kept |
| ApiUserManager.UserManager.DeleteUser | models/user.rb:80-89 | absent id: not-found, nothing changes; present: the first match is cut out, the rest keep their order, the counter is untouched, and its snapshot is returned |
| ApiUserManager.UserManager.SearchUsersByName | models/user.rb:92-101 | `count` equals the length of `data`; `data` holds exactly the matching users' snapshots, a subsequence of the store's snapshots, and is the snapshot list of `Select`, which `SelectUnique` pins down |
| ApiUserManager.UserManager.GetStats | models/user.rb:104-116 | total equals the store size; average 0 when empty, else sum of ages over the count |
| ApiUserManager.UserManager.UserExists | models/user.rb:119-121 | holds exactly when some stored user has the id |
| ApiUserManager.UserManager.ExistsIffReadable | models/user.rb:119-121 | `user_exists?(id)` holds exactly when `read_user_by_id(id)` succeeds |
| UserService.Decimal | services/user_service.rb:102 | the rendering of a placeholder number is a non-empty string of decimal digits |
| UserService.DecimalRoundTrip | services/user_service.rb:102 | reading the digits of `$n` back gives `n`, so distinct placeholders are written distinctly |
| UserService.CreateUser | services/user_service.rb:5-21 | nothing is sent exactly when the user is invalid; otherwise one INSERT with name, email, age, owner as `$1..$4` |
| UserService.DeleteUser | services/user_service.rb:151-159 | nothing is sent exactly when the scoped lookup fails; otherwise one DELETE with id and owner |
| UserService.Placeholder | services/user_service.rb:102-124 | `"$#{param_index}"`: a `$` followed by decimal digits that read back as the index |
| UserService.InsertSql | services/user_service.rb:19 | the INSERT text of `create_user`, with name, email, age and owner at `$1..$4` |
| UserService.DeleteSql | services/user_service.rb:157 | the DELETE text of `delete_user`, scoped by id at `$1` and owner at `$2` |
| UserService.ColumnName | services/user_service.rb:102-114 | the column names `name`, `email` and `age` the SET entries write |
| UserService.ClauseSql | services/user_service.rb:102-124 | the text of one SET entry: `column = $n` or the update-time stamp |
| UserService.JoinClauses | services/user_service.rb:128 | `updates.join(', ')` |
| UserService.UpdateSql | services/user_service.rb:128 | the UPDATE text for a SET list and the placeholder of `id`, with `created_by` at the next one |
| UserService.CollectUpdates | services/user_service.rb:97-117 | the SET list assigns the k-th given column (in the order name, email, age) to `$k`, the parameters are the given values in that order, and the counter ends one past the last placeholder |
| UserService.UpdateUser | services/user_service.rb:91-128 | failed lookup: nil and no statement; no field given: the existing user, no statement; otherwise one UPDATE whose text depends only on which fields are given, with parameters the given values then id and owner |
| UserService.PlaceholderBinding | services/user_service.rb:99-128 | the k-th SET clause uses `$k`, whose parameter is that column's value; the stamp comes last; the WHERE pair addresses id and owner, the last two parameters |
| UserService.ColumnsInOrder | services/user_service.rb:101-117 | exactly the given columns are set, each once, in the order name, email, age |
| UserService.PlaceholdersCoverParams | services/user_service.rb:124-128 | the UPDATE uses exactly the placeholders `$1 .. $(number of parameters)` |
| UserService.SearchPattern | services/user_service.rb:173 | `"%#{name}%"`, nothing escaped; `PatternMeansContains` states what it matches |
| UserService.Like | services/user_service.rb:172 | PostgreSQL LIKE with `%`, `_` and backslash escape |
| UserService.ILike | services/user_service.rb:172 | ILIKE: LIKE after downcasing both sides |
| UserService.PercentMatchesAll | services/user_service.rb:172-173 | a `%` matches every string |
| UserService.LiteralThenPercent | services/user_service.rb:172-173 | a literal followed by `%` matches exactly the strings it starts |
| UserService.PatternMeansContains | services/user_service.rb:172-173 | for a query without `%`, `_` or backslash, `%query%` matches exactly the strings containing it |
| UserService.ILikeAgreesWithNameMatch | services/user_service.rb:172-173 | for such a query the ILIKE search selects exactly the names the in-memory search selects |
| UserService.UnderscoreIsWildcard | services/user_service.rb:173 | the unescaped `_` makes the database search match `"a"` where the in-memory search does not |
| AuthUsers.IsValid | models/auth_user.rb:17-21 | `valid?`, its three clauses tested left to right; `ValidIff` states its meaning |
| AuthUsers.ValidIff | models/auth_user.rb:17-21 | `valid?` holds exactly when the username has at least 3 characters, the email contains '@' and a non-empty password hash is present |
| AuthUsers.HasAtIff | models/auth_user.rb:19 | `email.include?('@')` holds exactly when some character is '@' |
| AuthUsers.ShortUsernameInvalid | models/auth_user.rb:18 | a nil, empty or under-3-character username makes the account invalid |
| AuthUsers.ThreeCharUsernameAccepted | models/auth_user.rb:17-21 | every account with a 3-character username, an email containing '@' and a non-empty password hash is valid |
| AuthUsers.EmailWithoutAtInvalid | models/auth_user.rb:19 | a nil email or one without '@' makes the account invalid |
| AuthUsers.MissingHashInvalid | models/auth_user.rb:20 | a nil or empty password hash makes the account invalid |
| AuthUsers.ToHash | models/auth_user.rb:23-31 | the hash has exactly the keys id, username, email, created_at, updated_at, and never the password hash |
| AuthUsers.ToHashLosesOnlyPasswordHash | models/auth_user.rb:23-31 | the hash carries every other attribute unchanged: with the password hash supplied again, the account is recovered |
| PasswordHelper.InClass | utils/password_helper.rb:17-20 | the four character classes `[A-Z]`, `[a-z]`, `[0-9]` and `[^A-Za-z0-9]`, as ASCII ranges; `NonAsciiIsSpecial` states the last for non-ASCII characters |
| PasswordHelper.Matches | utils/password_helper.rb:17-20 | `password.match(/[...]/)` as a scan; `MatchesIffSome` states its meaning |
| PasswordHelper.MatchesIffSome | utils/password_helper.rb:17-20 | a `match(/[...]/)` succeeds exactly when some character is in the class |
| PasswordHelper.PasswordStrong | utils/password_helper.rb:15-22 | the chain of early returns; `StrongIff` states its meaning |
| PasswordHelper.StrongIff | utils/password_helper.rb:15-22 | strong exactly when at least 8 characters and at least one uppercase, lowercase, digit and non-alphanumeric character, in any order of the checks |
| PasswordHelper.ShortIsWeak | utils/password_helper.rb:16 | fewer than 8 characters is never strong |
| PasswordHelper.MissingClassIsWeak | utils/password_helper.rb:17-20 | lacking any one of the four classes is never strong |
| PasswordHelper.NonAsciiIsSpecial | utils/password_helper.rb:20 | every character outside ASCII is in `[^A-Za-z0-9]` |
| PasswordHelper.NonAsciiSatisfiesSpecial | utils/password_helper.rb:20 | a password with any non-ASCII character, at any position, passes the special-character check |
| PasswordHelper.HangulCountsAsSpecial | utils/password_helper.rb:15-22 | an example: "Passw0rd한" is strong, with '한' as its special character |

## Left out

- The `User` class body is not part of this model. `valid?` is a function value each manager is given and never inspects. The terminal manager calls `User.new(id, name, email, age)` positionally, while every other call passes keywords. The model assumes that this positional call succeeds and leaves owner and times nil. Against a keyword-only `initialize` it would raise `ArgumentError` instead.
- Console output (`puts`) is left out, along with the terminal menus (ui/*.rb, main.rb) and config/database.rb. These are I/O and presentation; error and success messages become the error kinds of the reply envelope.
- The Sinatra `UserAPI` routes, JSON parsing, CORS and status codes (models/user.rb:125-281) are left out, as transport glue.
- `Time.now` is a parameter `now`: the clock is outside the model.
- `Database.execute`, the SELECT bodies of `UserService` (`get_all_users`, `get_user_by_id`, `search_users_by_name`, `get_user_stats`), and the handling of the rows they return are left out. Their results come from a database the model does not have. The owner-scoped lookup is an input `existing`.
- UserService.UpdateUser: yields the statement it would send, or the answer it gives without one. The rebuilt user from the returned row (services/user_service.rb:130-148) is not modelled.
- UserService.CreateUser: the id and creation time read back from the INSERT's row (services/user_service.rb:23-33) are not modelled.
- UserService.DeleteUser: the `cmd_tuples` check on the DELETE's result (services/user_service.rb:161-167) is not modelled.
- UserService.Like: a pattern ending in a lone backslash is a PostgreSQL error. Here it is simply no match.
- The `ORDER BY name` of the SQL search is not modelled; only the pattern is.
- UserService.ILike: case folding is the ASCII `downcase`, while PostgreSQL folds by the database's locale, which also folds non-ASCII letters. So UserService.ILikeAgreesWithNameMatch shows agreement only when both searches fold ASCII alone.
- Text.Downcase, Users.NameMatches: `downcase` is ASCII-only here, while Ruby's is full Unicode case mapping. Names and queries with non-ASCII capitals may match differently.
- CliUserManager.UserManager.GetStats: the average is the exact quotient as a `real`, not a Ruby float.
- ApiUserManager.UserManager.GetStats: the average is the exact quotient as a `real`, with `round(1)` not applied.
- ApiUserManager.UserManager.UpdateUser: `updated_by` is accepted and unused, as in the code.
- Users.User.constructor: the id is a constant. In Ruby, `User` has an id writer (services/user_service.rb:25 uses it). The terminal manager hands its stored objects to callers (managers/user_manager.rb:21, 35, 46, 68, 96), who could rewrite an id and break the ascending-id invariant. The model does not capture such outside writes. The API manager replies with `to_hash` snapshots only (models/user.rb:35, 44, 52, 76, 88, 99), so outside `id=` writes cannot reach its store.
- CliUserManager.UserManager.ReadAllUsers: returns the stored list as a value. Ruby returns the live `@users` array when the store is non-empty (managers/user_manager.rb:35), so a caller holding it sees later appends and deletions. It returns a fresh `[]` when the store is empty (managers/user_manager.rb:28). That aliasing of the array is not modelled; aliasing of the user objects is.
- Types are fixed: name and email are strings and age is an integer. The API routes pass raw JSON values to the managers (models/user.rb:181-186, 208-213), so nil, non-string or non-integer values can reach `create_user` and `update_user`, and what `valid?` does with them depends on the `User` class, which is not part of this model.
- `PasswordHelper.hash_password` and `verify_password` are left out: they call BCrypt, a foreign library with random salts.
- `PasswordHelper.password_requirements` is left out: it only prints.
- services/database_service.rb is left out: DDL, backups, maintenance and seeding. Only its age CHECK is used, as a hypothesis.
- The account store (registration, login, password change) is not part of this model. The service that implements it is not among the modelled files.
- Users.User.ToHash: the `User` class is not part of this model, so `to_hash` is assumed to be the snapshot of exactly the seven attributes id, name, email, age, created_by, created_at and updated_at. `name=`, `email=`, `age=` and `updated_at=` are likewise assumed to be plain attribute writers. Every API reply, `ExportUsers` and `Assign` rest on these two assumptions.
- Concurrent calls are not modelled: each operation runs alone, start to finish. Neither manager takes a lock, and the API builds one `@user_manager` in `UserAPI#initialize` (models/user.rb:127-133) that all its requests share.
- Integer widths are unbounded: Ruby integers do not wrap, so nothing is lost.
