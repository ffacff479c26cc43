/**
 * The rows of the two account tables, how a query names a row, and the
 * password hasher the store relies on.
 */
module Schema {
  import opened Wrappers

  /** Primary keys, assigned by the store's auto-increment counter of each table. */
  type Id = int

  type Bytes = seq<bv8>

  /**
   * One row of `temp_users` (a `TempUser`, awaiting verification) or of
   * `users` (a `User`, verified). The row's id is its key in the table.
   * `password` is always the stored bcrypt hash, never the plaintext.
   */
  datatype Row =
    | TempUser(name: string, email: string, password: Bytes, verifyCode: string)
    | User(name: string, email: string, password: Bytes, refreshId: Option<Bytes>)

  /**
   * The `where` clause of a lookup: the pair (`id_or_email`, `is_email`)
   * of the source, with `is_email` false for `ById` and true for `ByEmail`.
   */
  datatype Key = ById(id: Id) | ByEmail(email: string)

  /** The `where` clause on the column `is_email` chooses: `id` or `email`. */
  predicate MatchesKey(id: Id, row: Row, key: Key)
    ensures key.ById? ==> (MatchesKey(id, row, key) <==> id == key.id)
    ensures key.ByEmail? ==> (MatchesKey(id, row, key) <==> row.email == key.email)
  {
    match key
    case ById(k) => id == k
    case ByEmail(e) => row.email == e
  }

  /** The schema of `temp_users`: every row has a `verify_code` column. */
  ghost predicate IsTempTable(t: map<Id, Row>) {
    forall i :: i in t ==> t[i].TempUser?
  }

  /** The schema of `users`: every row has a `refresh_id` column. */
  ghost predicate IsUsersTable(t: map<Id, Row>) {
    forall i :: i in t ==> t[i].User?
  }

  /**
   * The credential hasher: `hash(plaintext, salt)` is bcrypt's hashpw with a
   * salt from gensalt, `verify(plaintext, stored)` is bcrypt's checkpw. Both
   * are left uninterpreted.
   */
  datatype Hasher = Hasher(hash: (string, Bytes) -> Bytes, verify: (string, Bytes) -> bool)

  /** The one thing assumed of the hasher: a hash verifies against its own plaintext. */
  ghost predicate Sound(h: Hasher) {
    forall p, salt :: h.verify(p, h.hash(p, salt))
  }
}
