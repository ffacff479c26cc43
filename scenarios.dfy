/** Clients of the account store: what a caller can prove from the operations' contracts alone. */
module Scenarios {
  import opened Wrappers
  import opened Schema
  import Sql
  import opened Db

  /**
   * Register an account, find it pending, verify it, find it verified and
   * log in with the registration password.
   */
  method RegisterThenVerify(db: AccountDb, name: string, email: string, password: string,
                            salt: Bytes, tempId: Id, userId: Id, code: string)
    returns (pending: Option<bool>, verified: Option<bool>, login: Option<bool>)
    requires db.Valid() && Sound(db.hasher)
    requires tempId !in db.tempUsers && userId !in db.users && userId !in db.tempUsers
    requires Sql.Matching(db.tempUsers, ByEmail(email)) == {} && Sql.Matching(db.users, ByEmail(email)) == {}
    modifies db
    ensures pending == Some(false) && verified == Some(true) && login == Some(true)
    ensures db.IsUserExists(ById(tempId), true) == Some(false)
  {
    var created := db.CreateUser(name, email, password, true, salt, tempId, code);
    assert created.value == (tempId, Some(code));
    assert db.IsUserExists(ByEmail(email), true) == Some(true);
    pending := db.IsVerified(ById(tempId));
    var moved := db.TransformVerifiedUser(tempId, userId);
    assert moved == Some(userId);
    verified := db.IsVerified(ById(userId));
    login := db.CheckPassword(ById(userId), password);
  }

  /** Two refreshes with distinct fresh codes: the first code is stale after the second. */
  method RefreshTwice(db: AccountDb, id: Id, first: string, second: string)
    returns (r1: Option<string>, r2: Option<string>, stale: Option<bool>)
    requires db.Valid() && id in db.tempUsers
    requires db.tempUsers[id].verifyCode != first && first != second
    modifies db
    ensures r1 == Some(first) && r2 == Some(second)
    ensures stale == Some(false)
  {
    r1 := db.RefreshVerifyCode(id, first);
    r2 := db.RefreshVerifyCode(id, second);
    stale := db.CheckVerifyCode(id, first);
  }
}
