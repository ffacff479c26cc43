/**
 * The account store: a table `temp_users` of registrations awaiting email
 * verification and a table `users` of verified accounts, with the queries
 * and updates that move an account from the first to the second.
 *
 * Values the source draws from outside the store are parameters: the id the
 * auto-increment counter assigns to an insert (`newId`), the token uuid1
 * yields (`code`, `token`) and the salt gensalt yields (`salt`). The bcrypt
 * pair is the store's `hasher`, fixed when the store is created.
 */
module Db {
  import opened Wrappers
  import opened Schema
  import Sql

  /** The table a query runs against. */
  function GetUserTable(isTempUser: bool): (name: string)
    ensures name == "temp_users" <==> isTempUser
    ensures name == "users" <==> !isTempUser
  {
    if isTempUser then "temp_users" else "users"
  }

  /**
   * The status `is_verified` reports from the two existence checks: not yet
   * verified (false) while the account is pending, whatever `users` holds;
   * verified (true) only when it is in `users` alone; and nothing when it is
   * in neither table.
   */
  function VerifiedStatus(isTemp: bool, isUser: bool): (r: Option<bool>)
    ensures r == Some(false) <==> isTemp
    ensures r == Some(true) <==> !isTemp && isUser
    ensures r == None <==> !isTemp && !isUser
  {
    if isTemp then Some(false) else if isUser then Some(true) else None
  }

  class AccountDb {
    var tempUsers: map<Id, Row>
    var users: map<Id, Row>
    /** The one bcrypt the store hashes and checks passwords with. */
    const hasher: Hasher

    /** Each table holds rows of its own schema. */
    ghost predicate Valid()
      reads this
    {
      IsTempTable(tempUsers) && IsUsersTable(users)
    }

    constructor (h: Hasher)
      ensures Valid() && tempUsers == map[] && users == map[] && hasher == h
    {
      hasher := h;
      tempUsers := map[];
      users := map[];
    }

    /** The rows of the table with the given name. */
    function Table(name: string): (t: map<Id, Row>)
      reads this
      requires name == "temp_users" || name == "users"
    {
      if name == "temp_users" then tempUsers else users
    }

    /** `is_user_exists`: whether some row of the chosen table matches the key. */
    function IsUserExists(key: Key, isTempUser: bool): (r: Option<bool>)
      reads this
      ensures r.Some?
      ensures r.value <==> exists i :: i in Table(GetUserTable(isTempUser)) && MatchesKey(i, Table(GetUserTable(isTempUser))[i], key)
    {
      var table := GetUserTable(isTempUser);
      Some(Sql.Exists(Table(table), key))
    }

    /** `is_verified`: status from membership in `temp_users` first, then in `users`. */
    function IsVerified(key: Key): (r: Option<bool>)
      reads this
      ensures (exists i :: i in tempUsers && MatchesKey(i, tempUsers[i], key)) ==> r == Some(false)
      ensures r == Some(true) <==>
        (!exists i :: i in tempUsers && MatchesKey(i, tempUsers[i], key)) &&
        (exists i :: i in users && MatchesKey(i, users[i], key))
      ensures r == None <==>
        (!exists i :: i in tempUsers && MatchesKey(i, tempUsers[i], key)) &&
        (!exists i :: i in users && MatchesKey(i, users[i], key))
    {
      var isTemp := Sql.Exists(Table(GetUserTable(true)), key);
      var isUser := Sql.Exists(Table(GetUserTable(false)), key);
      VerifiedStatus(isTemp, isUser)
    }

    /** `get_user`: the whole row, only when exactly one row matches the key. */
    function GetUser(key: Key, isTempUser: bool): (r: Option<(Id, Row)>)
      reads this
      ensures var t := Table(GetUserTable(isTempUser));
        && (r.Some? <==> |Sql.Matching(t, key)| == 1)
        && (r.Some? ==> Sql.Matching(t, key) == {r.value.0} && r.value.0 in t && t[r.value.0] == r.value.1)
        && (key.ById? ==> (r.Some? <==> key.id in t))
    {
      var table := GetUserTable(isTempUser);
      Sql.SelectOne(Table(table), key)
    }

    /** `get_user_id`: the id of the one row with the given email, if there is exactly one. */
    function GetUserId(email: string, isTempUser: bool): (r: Option<Id>)
      reads this
      ensures var t := Table(GetUserTable(isTempUser));
        && (r.Some? <==> |Sql.Matching(t, ByEmail(email))| == 1)
        && (r.Some? ==> Sql.Matching(t, ByEmail(email)) == {r.value} && t[r.value].email == email)
    {
      var table := GetUserTable(isTempUser);
      match Sql.SelectOne(Table(table), ByEmail(email))
      case None => None
      case Some((id, _)) => Some(id)
    }

    /** `check_verify_code`: whether the pending account `id` holds exactly this code. */
    function CheckVerifyCode(id: Id, code: string): (r: Option<bool>)
      reads this`tempUsers
      requires IsTempTable(tempUsers)
      ensures r.Some?
      ensures r.value <==> id in tempUsers && tempUsers[id].verifyCode == code
    {
      Some(Sql.CodeMatches(tempUsers, id, code))
    }

    /** `check_refresh_id`: whether the verified account `id` holds exactly this token. */
    function CheckRefreshId(id: Id, token: Bytes): (r: Option<bool>)
      reads this`users
      requires IsUsersTable(users)
      ensures r.Some?
      ensures r.value <==> id in users && users[id].refreshId == Some(token)
    {
      Some(Sql.RefreshIdMatches(users, id, token))
    }

    /**
     * `check_password`: consults `users` alone (its frame says so). Nothing
     * when the key does not select exactly one row, else the hasher's verdict
     * on the stored hash.
     */
    function CheckPassword(key: Key, password: string): (r: Option<bool>)
      reads this`users
      ensures r.Some? <==> |Sql.Matching(users, key)| == 1
      ensures r.Some? ==> exists i :: i in users && Sql.Matching(users, key) == {i} && r.value == hasher.verify(password, users[i].password)
    {
      match Sql.SelectOne(users, key)
      case None => None
      case Some((_, row)) => Some(hasher.verify(password, row.password))
    }

    /**
     * `create_user_binary`: inserts one row into the chosen table under the
     * id the store assigns, with a verify code only for `temp_users`, then
     * reads an id back by looking the email up. The store may return any row
     * with that email; it is the new row whenever the email was new to the table.
     */
    method CreateUserBinary(name: string, email: string, password: Bytes, isTempUser: bool, newId: Id, code: string)
      returns (r: Option<(Id, Option<string>)>)
      requires Valid()
      requires newId !in Table(GetUserTable(isTempUser))
      modifies this
      ensures Valid()
      ensures isTempUser ==> tempUsers == old(tempUsers)[newId := TempUser(name, email, password, code)] && users == old(users)
      ensures !isTempUser ==> users == old(users)[newId := User(name, email, password, None)] && tempUsers == old(tempUsers)
      ensures r.Some? && r.value.1 == (if isTempUser then Some(code) else None)
      ensures r.value.0 in Table(GetUserTable(isTempUser)) && Table(GetUserTable(isTempUser))[r.value.0].email == email
      ensures Sql.Matching(old(Table(GetUserTable(isTempUser))), ByEmail(email)) == {} ==> r.value.0 == newId
      ensures IsUserExists(ByEmail(email), isTempUser) == Some(true)
    {
      var table := GetUserTable(isTempUser);
      var verifyCode := if isTempUser then Some(code) else None;
      var row := if isTempUser then TempUser(name, email, password, code) else User(name, email, password, None);
      // the insert of one row always reports one row and is committed
      ghost var before := Table(table);
      Sql.InsertMatching(before, newId, row, email);
      if table == "temp_users" {
        tempUsers := tempUsers[newId := row];
      } else {
        users := users[newId := row];
      }
      // the follow-up `select id from table where email = email` and fetchone()
      var ids := Sql.Matching(Table(table), ByEmail(email));
      assert newId in ids;
      var id :| id in ids;
      r := Some((id, verifyCode));
    }

    /** `create_user`: hashes the plaintext with a fresh salt and stores the hash. */
    method CreateUser(name: string, email: string, password: string, isTempUser: bool,
                      salt: Bytes, newId: Id, code: string)
      returns (r: Option<(Id, Option<string>)>)
      requires Valid()
      requires newId !in Table(GetUserTable(isTempUser))
      modifies this
      ensures Valid()
      ensures isTempUser ==> tempUsers == old(tempUsers)[newId := TempUser(name, email, hasher.hash(password, salt), code)] && users == old(users)
      ensures !isTempUser ==> users == old(users)[newId := User(name, email, hasher.hash(password, salt), None)] && tempUsers == old(tempUsers)
      ensures r.Some? && r.value.1 == (if isTempUser then Some(code) else None)
      ensures r.value.0 in Table(GetUserTable(isTempUser)) && Table(GetUserTable(isTempUser))[r.value.0].email == email
      ensures Sql.Matching(old(Table(GetUserTable(isTempUser))), ByEmail(email)) == {} ==> r.value.0 == newId
      ensures IsUserExists(ByEmail(email), isTempUser) == Some(true)
      ensures !isTempUser && Sound(hasher) ==> CheckPassword(ById(newId), password) == Some(true)
      ensures !isTempUser && Sound(hasher) && Sql.Matching(old(users), ByEmail(email)) == {} ==>
        CheckPassword(ByEmail(email), password) == Some(true)
    {
      var hashed := hasher.hash(password, salt);
      ghost var oldUsers := users;
      r := CreateUserBinary(name, email, hashed, isTempUser, newId, code);
      if !isTempUser && Sql.Matching(oldUsers, ByEmail(email)) == {} {
        Sql.InsertFreshEmail(oldUsers, newId, users[newId]);
      }
    }

    /**
     * `delete_user`: true exactly when the delete removed one row; on false
     * nothing is committed and both tables are as before.
     */
    method DeleteUser(id: Id, isTempUser: bool) returns (deleted: bool)
      requires Valid()
      modifies this
      ensures Valid()
      ensures deleted <==> id in old(Table(GetUserTable(isTempUser)))
      ensures isTempUser ==> tempUsers == old(tempUsers) - {id} && users == old(users)
      ensures !isTempUser ==> users == old(users) - {id} && tempUsers == old(tempUsers)
      ensures !deleted ==> tempUsers == old(tempUsers) && users == old(users)
      ensures IsUserExists(ById(id), isTempUser) == Some(false)
    {
      var table := GetUserTable(isTempUser);
      var e := Sql.DeleteById(Table(table), id);
      if e.affected != 1 {
        return false;
      }
      if table == "temp_users" {
        tempUsers := e.table;
      } else {
        users := e.table;
      }
      assert e.table == old(Table(table)) - {id};
      return true;
    }

    /**
     * `refresh_verify_code`: overwrites the pending account's code with the
     * fresh one and returns it. Nothing is returned, and nothing changes,
     * when no row changed: no such id, or the code already stored.
     */
    method RefreshVerifyCode(id: Id, code: string) returns (r: Option<string>)
      requires Valid()
      modifies this
      ensures Valid() && users == old(users)
      ensures r.Some? <==> id in old(tempUsers) && old(tempUsers)[id].verifyCode != code
      ensures r.Some? ==> r.value == code && tempUsers == old(tempUsers)[id := old(tempUsers)[id].(verifyCode := code)]
      ensures r.None? ==> tempUsers == old(tempUsers)
      ensures r.Some? ==> forall c :: CheckVerifyCode(id, c) == Some(c == code)
    {
      if id in tempUsers && tempUsers[id].verifyCode != code {
        Sql.FreshCodeReplacesOld(tempUsers, id, tempUsers[id].verifyCode, code);
      }
      var e := Sql.UpdateVerifyCode(tempUsers, id, code);
      if e.affected != 1 {
        return None;
      }
      tempUsers := e.table;
      return Some(code);
    }

    /** `refresh_id`: the same as RefreshVerifyCode, for the refresh token of a verified account. */
    method RefreshId(id: Id, token: Bytes) returns (r: Option<Bytes>)
      requires Valid()
      modifies this
      ensures Valid() && tempUsers == old(tempUsers)
      ensures r.Some? <==> id in old(users) && old(users)[id].refreshId != Some(token)
      ensures r.Some? ==> r.value == token && users == old(users)[id := old(users)[id].(refreshId := Some(token))]
      ensures r.None? ==> users == old(users)
      ensures r.Some? ==> forall t :: CheckRefreshId(id, t) == Some(t == token)
    {
      var e := Sql.UpdateRefreshId(users, id, token);
      if e.affected != 1 {
        return None;
      }
      users := e.table;
      return Some(token);
    }

    /**
     * `transform_verified_user`, with the two defects recorded in the README
     * corrected (the lookup names all three arguments, and the row is read by
     * field). A missing pending account leaves both tables alone; otherwise
     * its row leaves `temp_users` and a `users` row with the same name, email
     * and stored hash is added under the id the store assigns.
     */
    method TransformVerifiedUser(id: Id, newId: Id) returns (r: Option<Id>)
      requires Valid()
      requires newId !in users
      modifies this
      ensures Valid()
      ensures id !in old(tempUsers) ==> r == None && tempUsers == old(tempUsers) && users == old(users)
      ensures id in old(tempUsers) ==>
        var row := old(tempUsers)[id];
        && tempUsers == old(tempUsers) - {id}
        && users == old(users)[newId := User(row.name, row.email, row.password, None)]
        && r.Some? && r.value in users && users[r.value].email == row.email
        && (Sql.Matching(old(users), ByEmail(row.email)) == {} ==> r == Some(newId))
      ensures r.Some? ==> IsUserExists(ById(id), true) == Some(false)
      ensures r.Some? ==> IsUserExists(ByEmail(old(tempUsers)[id].email), false) == Some(true)
      ensures r.Some? ==> users[newId].password == old(tempUsers)[id].password
    {
      var userData := GetUser(ById(id), true);
      if userData.None? {
        return None;
      }
      var row := userData.value.1;
      var deleted := DeleteUser(id, true);
      if !deleted {
        return None;
      }
      // between the delete and the insert the account is in neither table
      assert id !in tempUsers && newId !in users;
      var created := CreateUserBinary(row.name, row.email, row.password, false, newId, "");
      return Some(created.value.0);
    }
  }
}
