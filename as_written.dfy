/**
 * transform_verified_user as it is written, where it departs from what it
 * evidently means to do. Db.AccountDb.TransformVerifiedUser is the corrected
 * operation the rest of the model uses.
 */
module AsWritten {
  import opened Wrappers
  import opened Schema

  datatype PyError = TypeError(callee: string, missing: seq<string>)

  /** A Python call either returns a value or raises. */
  datatype Outcome<T> = Returned(value: T) | Raised(error: PyError)

  /** The positional parameters of `get_user`, none of which has a default. */
  const GET_USER_PARAMETERS: seq<string> := ["id_or_email", "is_email", "is_temp_user"]

  /** Binding `argCount` positional arguments: the parameters left without a value, in order. */
  function Unbound(parameters: seq<string>, argCount: nat): (missing: seq<string>)
    ensures missing == [] <==> argCount >= |parameters|
    ensures argCount < |parameters| ==> parameters == parameters[..argCount] + missing
  {
    if argCount >= |parameters| then [] else parameters[argCount..]
  }

  /**
   * The first statement calls `get_user(id, True)`: two arguments for three
   * parameters, so the call raises TypeError before any statement reaches
   * the store, for every id and every state of the tables.
   */
  method TransformVerifiedUserAsWritten(id: Id) returns (o: Outcome<Option<Id>>)
    ensures o == Raised(TypeError("get_user", ["is_temp_user"]))
  {
    var missing := Unbound(GET_USER_PARAMETERS, 2);
    o := Raised(TypeError("get_user", missing));
  }

  /**
   * The columns of `temp_users`. The order `select *` returns them in is the
   * table's declared order, which the source does not show.
   */
  datatype Column = IdColumn | NameColumn | EmailColumn | PasswordColumn | VerifyCodeColumn

  /** For each copied column of the new `users` row, the `temp_users` column it is taken from. */
  datatype Carry = Carry(name: Column, email: Column, password: Column)

  /** Copying by column name, the evident intent. */
  const BY_NAME: Carry := Carry(NameColumn, EmailColumn, PasswordColumn)

  /** The column order of the source's own insert into `temp_users`. */
  const INSERT_ORDER: seq<Column> := [IdColumn, NameColumn, EmailColumn, PasswordColumn, VerifyCodeColumn]

  /**
   * The positional reads of the fetched row: email from position 1, name
   * from position 2, password from position 3.
   */
  function PositionalCarry(layout: seq<Column>): (c: Carry)
    requires |layout| >= 4
    ensures c.email == layout[1] && c.name == layout[2] && c.password == layout[3]
  {
    Carry(name := layout[2], email := layout[1], password := layout[3])
  }

  /** The positional reads copy by name exactly for one column order of positions 1 to 3. */
  lemma PositionalCarryIsByNameIff(layout: seq<Column>)
    requires |layout| >= 4
    ensures PositionalCarry(layout) == BY_NAME <==>
      layout[1] == EmailColumn && layout[2] == NameColumn && layout[3] == PasswordColumn
  {
  }

  /** Under the insert's column order the verified account gets its email as name and its name as email. */
  lemma InsertOrderSwapsNameAndEmail()
    ensures PositionalCarry(INSERT_ORDER) == Carry(name := EmailColumn, email := NameColumn, password := PasswordColumn)
    ensures PositionalCarry(INSERT_ORDER) != BY_NAME
  {
  }
}
