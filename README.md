# Account store: pending and verified users

A model of `db.py`, the account layer of a game backend. Accounts live in two
MySQL tables: `temp_users` holds registrations that still wait for email
verification, each with a `verify_code`; `users` holds verified accounts,
each with a nullable `refresh_id`. Most operations of `db.py` send one SQL
statement through pymysql. Three send more. `is_verified` runs two `select
exists` checks, on `temp_users` and then on `users`. `create_user_binary`
inserts a row and then selects its id by email. `transform_verified_user`
reads a pending row, deletes it and inserts a verified row, through
`get_user`, `delete_user` and `create_user_binary`. Together the
statements form a small state machine: register (pending), refresh the code,
verify (move to `users`), refresh the token, check the password.

The model is in Dafny:

- `wrappers.dfy`: module `Wrappers`, with `Option`. It stands for Python's "value or `None`".
- `schema.dfy`: module `Schema`. It holds the rows of both tables (`Row.TempUser`, `Row.User`), `Key`, and the bcrypt pair. `Key` is the source's (`id_or_email`, `is_email`) pair: `ById` or `ByEmail`. bcrypt is the uninterpreted `Hasher(hash, verify)`; the only thing assumed of it is `Sound`: a hash verifies against its own plaintext.
- `sql.dfy`: module `Sql`. It gives the meaning of each statement kind on one table, a map from id to row, and the row count the statement reports. A `select` reports its result rows. A `delete` reports the rows it removed. An `update` reports the rows it actually changed: MySQL counts changed rows unless the client asks for found rows, and pymysql does not ask.
- `db.dfy`: module `Db`, with class `AccountDb`. Its fields `tempUsers` and `users` are the two tables. The read-only queries are functions that read those fields. `check_password` and `check_refresh_id` read only `users`, and `check_verify_code` reads only `tempUsers`, so their frames show which table each consults. The state-changing operations are methods whose postconditions give both tables' new contents.
- `as_written.dfy`: module `AsWritten`. It holds the two defects of `transform_verified_user` as the code has them (see Findings).
- `scenarios.dfy`: module `Scenarios`. It holds two clients that use only the operations' contracts. The first registers an account, sees it pending, verifies it, sees it verified and logs in. The second refreshes a code twice and sees the first code rejected.

The source draws some values from outside the store. Here they are parameters:

- `newId`: the id the auto-increment counter gives an insert.
- `code` / `token`: the value of `uuid.uuid1()`.
- `salt`: the value of `bcrypt.gensalt()`.
- `hasher`: the one bcrypt pair of the store, a constant field of `AccountDb` fixed by its constructor. `CreateUser` hashes with it and `CheckPassword` verifies with it.

In four places the code does less than its docstrings or an atomic account transition would suggest. The model follows the code:

- The code deletes the pending row before inserting the verified one, and not in one transaction.
- For a missing id, `check_verify_code` and `check_refresh_id` answer `False`, the same as a wrong code. They give no separate "not found".
- Every `!= 1` guard on a `select exists(...)` and on the single-row insert can never fire. The first always returns one result row. The second always reports one row, because pymysql raises on errors and does not return another count. So those operations always return a value.
- `refresh_verify_code` and `refresh_id` return `None` not only when the id is missing. They also return `None` when the stored value already equals the new one, since the update then changes no row. A fresh uuid never equals the stored value.

Two more behaviours of the code that the contracts state:

- `create_user_binary` reads the new id back with `select id ... where email = ...`. The order of that result is not specified, so the model lets the store return any row with that email. The contract promises the new row's id only when the email was new to the table. If the email was already there, the caller may get the older row's id.
- The two tables number their rows independently. `is_verified(ById(n))` answers `False` whenever `temp_users` has a row numbered `n`, even if `n` was meant as a `users` id. `Scenarios.RegisterThenVerify` therefore requires that the new `users` id is not in use in `temp_users`.

## Model

| member | source | states |
|---|---|---|
| `Db.GetUserTable` | db.py:19-25 | the table is `temp_users` exactly when `is_temp_user` is true, otherwise `users` |
| `Db.VerifiedStatus` | db.py:75 | false exactly when the account is pending; true exactly when it is in `users` and not pending; `None` exactly when it is in neither |
| `Db.AccountDb.IsUserExists` | db.py:28-49 | always answers (never `None`), and answers true exactly when some row of the chosen table matches the id or email |
| `Db.AccountDb.IsVerified` | db.py:52-75 | false whenever the key matches a `temp_users` row, whatever `users` holds; true exactly when it matches no `temp_users` row and some `users` row; `None` exactly when it matches neither table |
| `Db.AccountDb.CreateUser` | db.py:78-90 | stores `hash(plaintext, salt)` and otherwise behaves as `CreateUserBinary`: the same new tables and returned code, a returned id that names a row with that email (the new id when the email was new), and the email then exists in that table; for a verified account and a sound hasher, `CheckPassword` by the new id, and by email when the email was new, then returns true |
| `Db.AccountDb.CreateUserBinary` | db.py:93-119 | inserts exactly the given name, email and password bytes under the new id into the chosen table only; the verify code is stored and returned for `temp_users`, `None` for `users`; the returned id is a row with that email, and is the new id when the email was new; afterwards the email exists in that table |
| `Db.AccountDb.DeleteUser` | db.py:122-137 | true exactly when the id was in the chosen table; that row alone is removed; when false both tables are unchanged; afterwards no row of that table has the id |
| `Db.AccountDb.GetUser` | db.py:140-151 | a row exactly when one row matches the key, and it is that row with its id; `None` for no match or several; by id, a row exactly when the id is present |
| `Db.AccountDb.GetUserId` | db.py:154-168 | an id exactly when one row has the email, and it is that row's id; `None` for zero or several |
| `Db.AccountDb.RefreshVerifyCode` | db.py:171-182 | when the pending row exists and holds another code, overwrites only that row's code and returns the new one; afterwards `CheckVerifyCode` accepts the new code and rejects every other, the previous one included; otherwise returns `None` and changes nothing; `users` never changes |
| `Db.AccountDb.RefreshId` | db.py:185-196 | the same for the refresh token of a `users` row; `temp_users` never changes |
| `Db.AccountDb.CheckVerifyCode` | db.py:199-208 | always answers; true exactly when the id is pending with exactly this verify code |
| `Db.AccountDb.CheckRefreshId` | db.py:211-220 | always answers; true exactly when the id is a verified account holding exactly this refresh token (a NULL token matches nothing) |
| `Db.AccountDb.CheckPassword` | db.py:223-244 | reads `users` only; `None` unless exactly one row matches; otherwise the hasher's verdict on the plaintext against that row's stored hash |
| `Db.AccountDb.TransformVerifiedUser` | db.py:247-265 | a missing pending account gives `None` with both tables unchanged; otherwise the id leaves `temp_users`, `users` gains under the new id a row with the same name, email and unrehashed password and a NULL token, and the returned id is a `users` row with that email (the new id when the email was new to `users`) |
| `Schema.MatchesKey` | db.py:42 | a row matches a lookup on the column `is_email` chooses: by id exactly when its id is the given id, by email exactly when its email is the given email (also db.py:60, db.py:146, db.py:237) |
| `Sql.Matching` | db.py:146-147 | the selected ids are ids of the table; a lookup by id selects that id alone when present and nothing otherwise |
| `Sql.Exists` | db.py:45-46 | the one result row of `select exists` is true exactly when some row matches |
| `Sql.SelectOne` | db.py:146-151 | the guarded `fetchone`: a row exactly when the statement reports one result row, and it is the matching row |
| `Sql.DeleteById` | db.py:132-133 | removes that id alone, and reports as affected the number of rows removed |
| `Sql.UpdateVerifyCode` | db.py:177-178 | sets the code of that row alone, and reports one affected row exactly when the table changed |
| `Sql.UpdateRefreshId` | db.py:191-192 | sets the refresh token of that row alone, and reports one affected row exactly when the table changed |
| `Sql.CodeMatches` | db.py:204-205 | the `select exists` on `id` and `verify_code`: true exactly when some row has that id and holds that code |
| `Sql.RefreshIdMatches` | db.py:216-217 | the `select exists` on `id` and `refresh_id`: true exactly when some row has that id and holds that token, a NULL token matching nothing |
| `Sql.InsertMatching` | db.py:112-119 | an insert under a fresh id adds that id, and nothing else, to the rows its email selects |
| `Sql.InsertFreshEmail` | db.py:117-119 | after inserting a row whose email was new, the email lookup selects the new row alone |
| `Sql.FreshCodeReplacesOld` | db.py:174-182 | a refresh with a new code changes one row; afterwards the new code matches and the previous one does not |
| `AsWritten.Unbound` | db.py:140 | binding fewer positional arguments than parameters leaves exactly the trailing parameters unbound |
| `AsWritten.TransformVerifiedUserAsWritten` | db.py:254 | the call `get_user(id, True)` raises TypeError for the missing `is_temp_user`, for every id, before any statement runs |
| `AsWritten.PositionalCarry` | db.py:258-260 | the as-written reads of the fetched row: email comes from position 1, name from position 2, password from position 3 of the table's column order |
| `AsWritten.PositionalCarryIsByNameIff` | db.py:258-260 | the positional reads copy name, email and password to their own columns exactly when the table's columns 1, 2 and 3 are email, name and password |
| `AsWritten.InsertOrderSwapsNameAndEmail` | db.py:258-260 | with the column order of the source's own insert, the new account's name is its email and its email is its name |

## Findings

| source | as written | input that shows it | evidently intended | confidence | as-written member | corrected member |
|---|---|---|---|---|---|---|
| db.py:254 | `get_user(id, True)` passes two arguments to a function with three parameters (db.py:140) | any id: Python raises TypeError (missing `is_temp_user`), so no account is ever verified | `get_user(id, False, True)`: look up by id in `temp_users` | high (Python call binding); not executed | `AsWritten.TransformVerifiedUserAsWritten` | `Db.AccountDb.TransformVerifiedUser` |
| db.py:258-260 | email, name and password are read by position 1, 2, 3 from `select *` | a `temp_users` table declared in the column order of the source's own insert (id, name, email, password, verify_code): the account is verified with name and email swapped | copy each field by its column name | low: the table's column order is not in the source; not executed | `AsWritten.InsertOrderSwapsNameAndEmail` | `Db.AccountDb.TransformVerifiedUser` |

## Left out

- Connection setup and configuration (`db()`, `env`, db.py:8-16), and the closing of connections, including the connections left open on early returns. These are I/O plumbing.
- pymysql exceptions: SQL errors, lost connections, constraint violations. Each statement is modelled as succeeding.
- The schema is not in the source. The model assumes no uniqueness constraint on `email`, so duplicate emails are possible. Under a unique index the second insert would raise instead.
- MySQL string comparison. Emails and codes are compared exactly. MySQL's default collations ignore case and trailing spaces.
- The insides of bcrypt, `uuid1`, `gensalt` and the auto-increment counter. They are parameters, or the uninterpreted `Hasher`. A caller must pass a `newId` not yet in the table. Unguessable and unique tokens are not modelled.
- Concurrency. In the model, operations run one after another. Races on duplicate emails around the id read-back (db.py:117) are not modelled. Neither is the non-atomic delete-then-insert of `transform_verified_user` (db.py:255-262). The body of `TransformVerifiedUser` asserts the intermediate state: the pending row is deleted and the verified row is not yet inserted. An older `users` row with the same email may still exist then.
- The SQL text and the f-string construction of queries. Only the meaning of each query is modelled.
- Python's dynamic typing of `id_or_email`. `Key` pairs the id with `is_email == False` and the email with `is_email == True`. A mismatched pair, whose comparison MySQL would coerce, is not modelled.
- Db.AccountDb.CreateUserBinary: the returned id is pinned to the new row only when the email was new to the table. Otherwise the contract says only that it is some row with that email, because the follow-up `select` has no `order by`.
- Db.AccountDb.CreateUser: the returned id is pinned to the new row only when the email was new to the table. Otherwise the contract says only that it is some row with that email. The reason is the same: it returns the id found by the follow-up `select` of `create_user_binary` (db.py:117-119), which has no `order by`. The docstring's "user id" is promised only in the first case.
- Db.AccountDb.TransformVerifiedUser: the returned id is pinned to the new `users` row only when the email was new to `users`. Otherwise the contract says only that it is some `users` row with that email. It returns the id from the follow-up `select` of `create_user_binary` (db.py:117-119, reached from db.py:262-265), which has no `order by`. The docstring promises the user's id, and the contract gives that only when the email was new.
- Db.AccountDb.CreateUserBinary: when inserting into `users`, the `code` parameter is ignored. The source generates a uuid only for `temp_users`.
