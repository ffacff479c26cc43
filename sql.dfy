/**
 * What each kind of statement the account store sends means for one table,
 * a map from primary key to row. Row counts follow MySQL as reached through
 * pymysql: a `select` reports the number of result rows, a `delete` the rows
 * it removed, an `update` the rows it actually CHANGED (pymysql does not ask
 * for found-rows counting).
 */
module Sql {
  import opened Wrappers
  import opened Schema

  /** The state of a table after a statement, and the row count it reports. */
  datatype Effect = Effect(table: map<Id, Row>, affected: nat)

  /** The ids of the rows that a `where` clause on `key` selects. */
  function Matching(t: map<Id, Row>, key: Key): (ids: set<Id>)
    ensures ids <= t.Keys
    ensures key.ById? ==> ids == (if key.id in t then {key.id} else {})
    ensures forall i :: i in t && MatchesKey(i, t[i], key) ==> i in ids
  {
    set i | i in t && MatchesKey(i, t[i], key)
  }

  /**
   * `select exists(select 1 from t where key)`: the result set always has
   * exactly one row, holding whether some row matches.
   */
  function Exists(t: map<Id, Row>, key: Key): (b: bool)
    ensures b <==> exists i :: i in t && MatchesKey(i, t[i], key)
  {
    Matching(t, key) != {}
  }

  /** A set of size one is the singleton of some element. */
  lemma OneElement(s: set<Id>)
    requires |s| == 1
    ensures exists x :: s == {x}
  {
    if forall x :: x !in s {
      assert false;
    }
    var x :| x in s;
    forall y | y in s
      ensures y == x
    {
      var rest := s - {x};
      assert |rest| == 0;
      assert y !in rest;
    }
    assert s == {x};
  }

  /** The element of a one-element set. */
  function Sole(s: set<Id>): (i: Id)
    requires |s| == 1
    ensures s == {i}
  {
    OneElement(s);
    var x :| s == {x};
    x
  }

  /**
   * A row-returning `select … from t where key` followed by `fetchone()`,
   * guarded as the source guards it: a row comes back only when the
   * statement reports exactly one result row.
   */
  function SelectOne(t: map<Id, Row>, key: Key): (r: Option<(Id, Row)>)
    ensures r.Some? <==> |Matching(t, key)| == 1
    ensures r.Some? ==> Matching(t, key) == {r.value.0} && r.value.0 in t && t[r.value.0] == r.value.1
    ensures r.Some? ==> MatchesKey(r.value.0, r.value.1, key)
  {
    var ids := Matching(t, key);
    if |ids| != 1 then None else var i := Sole(ids); Some((i, t[i]))
  }

  /** `delete from t where id = id`. */
  function DeleteById(t: map<Id, Row>, id: Id): (e: Effect)
    ensures e.table.Keys == t.Keys - {id}
    ensures forall j :: j in e.table ==> e.table[j] == t[j]
    ensures e.affected == |t| - |e.table|
  {
    Effect(t - {id}, if id in t then 1 else 0)
  }

  /** `update temp_users set verify_code = code where id = id`. */
  function UpdateVerifyCode(t: map<Id, Row>, id: Id, code: string): (e: Effect)
    requires IsTempTable(t)
    ensures IsTempTable(e.table) && e.table.Keys == t.Keys
    ensures forall j :: j in t && j != id ==> e.table[j] == t[j]
    ensures id in t ==> e.table[id] == t[id].(verifyCode := code)
    ensures e.affected == (if e.table == t then 0 else 1)
  {
    if id in t && t[id].verifyCode != code then
      var e := Effect(t[id := t[id].(verifyCode := code)], 1);
      assert e.table[id] != t[id];
      e
    else
      Effect(t, 0)
  }

  /** `update users set refresh_id = token where id = id`. */
  function UpdateRefreshId(t: map<Id, Row>, id: Id, token: Bytes): (e: Effect)
    requires IsUsersTable(t)
    ensures IsUsersTable(e.table) && e.table.Keys == t.Keys
    ensures forall j :: j in t && j != id ==> e.table[j] == t[j]
    ensures id in t ==> e.table[id] == t[id].(refreshId := Some(token))
    ensures e.affected == (if e.table == t then 0 else 1)
  {
    if id in t && t[id].refreshId != Some(token) then
      var e := Effect(t[id := t[id].(refreshId := Some(token))], 1);
      assert e.table[id] != t[id];
      e
    else
      Effect(t, 0)
  }

  /** `select exists(select 1 from temp_users where id = id and verify_code = code)`. */
  predicate CodeMatches(t: map<Id, Row>, id: Id, code: string)
    requires IsTempTable(t)
    ensures CodeMatches(t, id, code) <==> exists i :: i in t && i == id && t[i].verifyCode == code
  {
    id in t && t[id].verifyCode == code
  }

  /**
   * `select exists(select 1 from users where id = id and refresh_id = token)`;
   * a NULL `refresh_id` equals nothing.
   */
  predicate RefreshIdMatches(t: map<Id, Row>, id: Id, token: Bytes)
    requires IsUsersTable(t)
    ensures RefreshIdMatches(t, id, token) <==> exists i :: i in t && i == id && t[i].refreshId == Some(token)
  {
    id in t && t[id].refreshId == Some(token)
  }

  /**
   * Inserting a row under a fresh id adds exactly that id to the rows its
   * email selects, and leaves every other email's matches alone.
   */
  lemma InsertMatching(t: map<Id, Row>, id: Id, row: Row, email: string)
    requires id !in t
    ensures Matching(t[id := row], ByEmail(email))
         == Matching(t, ByEmail(email)) + (if row.email == email then {id} else {})
  {
  }

  /** After an insert, the email of the new row is the only one of its kind exactly when it was new. */
  lemma InsertFreshEmail(t: map<Id, Row>, id: Id, row: Row)
    requires id !in t
    requires Matching(t, ByEmail(row.email)) == {}
    ensures Matching(t[id := row], ByEmail(row.email)) == {id}
  {
    InsertMatching(t, id, row, row.email);
  }

  /** A refresh with a new code makes the new code, and only it, match. */
  lemma FreshCodeReplacesOld(t: map<Id, Row>, id: Id, oldCode: string, code: string)
    requires IsTempTable(t) && id in t && t[id].verifyCode == oldCode && oldCode != code
    ensures UpdateVerifyCode(t, id, code).affected == 1
    ensures CodeMatches(UpdateVerifyCode(t, id, code).table, id, code)
    ensures !CodeMatches(UpdateVerifyCode(t, id, code).table, id, oldCode)
  {
  }
}
