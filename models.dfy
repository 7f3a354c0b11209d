/**
 * The `users` table row (app/users/models.py): the Account record, the
 * column-level view of it that filters, inserts and updates work through,
 * and the column defaults.
 */
module Models {
  import opened Wrappers

  newtype Byte = b: int | 0 <= b < 256

  type Bytes = seq<Byte>

  /** A calendar date, as a day number. */
  type Date = int

  /** One row of the `users` table. `portfolioId` is the nullable column. */
  datatype Account = Account(
    id: int,
    email: string,
    passwordHashed: Bytes,
    verificationCode: string,
    isVerified: bool,
    portfolioId: Option<int>,
    isSub: bool,
    isAdmin: bool,
    isModer: bool,
    created: Date)

  /** The mapped columns of `User`. There is no `role` column. */
  datatype Column =
    | Id | Email | PasswordHashed | VerificationCode | IsVerified
    | PortfolioId | IsSub | IsAdmin | IsModer | Created

  /** A value bound to a column in a filter, an insert or an update. */
  datatype Value =
    | IntVal(i: int)
    | StrVal(s: string)
    | BytesVal(b: Bytes)
    | BoolVal(flag: bool)
    | DateVal(day: Date)
    | NullVal

  /** The attribute name of a column. */
  function ColumnName(c: Column): string
  {
    match c
    case Id => "id"
    case Email => "email"
    case PasswordHashed => "password_hashed"
    case VerificationCode => "verification_code"
    case IsVerified => "is_verified"
    case PortfolioId => "portfolio_id"
    case IsSub => "is_sub"
    case IsAdmin => "is_admin"
    case IsModer => "is_moder"
    case Created => "created"
  }

  /** The column an attribute name refers to, if any. */
  function ColumnNamed(name: string): (r: Option<Column>)
    ensures r.Some? ==> ColumnName(r.value) == name
  {
    if name == "id" then Some(Id)
    else if name == "email" then Some(Email)
    else if name == "password_hashed" then Some(PasswordHashed)
    else if name == "verification_code" then Some(VerificationCode)
    else if name == "is_verified" then Some(IsVerified)
    else if name == "portfolio_id" then Some(PortfolioId)
    else if name == "is_sub" then Some(IsSub)
    else if name == "is_admin" then Some(IsAdmin)
    else if name == "is_moder" then Some(IsModer)
    else if name == "created" then Some(Created)
    else None
  }

  /** Every column is found under its own attribute name, so distinct columns have distinct names. */
  lemma ColumnNamesRoundTrip()
    ensures forall c :: ColumnNamed(ColumnName(c)) == Some(c)
    ensures forall c, d :: ColumnName(c) == ColumnName(d) ==> c == d
  {
    forall c ensures ColumnNamed(ColumnName(c)) == Some(c) {
    }
  }

  /** Whether `v` can be stored in column `c`: its type, and NULL only where the column is nullable. */
  predicate Fits(c: Column, v: Value)
  {
    match c
    case Id => v.IntVal?
    case Email => v.StrVal?
    case PasswordHashed => v.BytesVal?
    case VerificationCode => v.StrVal?
    case IsVerified => v.BoolVal?
    case PortfolioId => v.IntVal? || v.NullVal?
    case IsSub => v.BoolVal?
    case IsAdmin => v.BoolVal?
    case IsModer => v.BoolVal?
    case Created => v.DateVal?
  }

  /** The range of the 32-bit INTEGER type of the `id` and `portfolio_id` columns. */
  const Int32Min: int := -0x8000_0000
  const Int32Max: int := 0x7FFF_FFFF

  /**
   * Whether the database accepts `v` as a statement parameter: an integer
   * must lie in the INTEGER range, since both integer columns are INTEGER.
   */
  predicate Bindable(v: Value)
  {
    v.IntVal? ==> Int32Min <= v.i <= Int32Max
  }

  /** The value a row holds in a column (NULL for an absent portfolio id). */
  function Get(a: Account, c: Column): (v: Value)
    ensures Fits(c, v)
  {
    match c
    case Id => IntVal(a.id)
    case Email => StrVal(a.email)
    case PasswordHashed => BytesVal(a.passwordHashed)
    case VerificationCode => StrVal(a.verificationCode)
    case IsVerified => BoolVal(a.isVerified)
    case PortfolioId => if a.portfolioId.Some? then IntVal(a.portfolioId.value) else NullVal
    case IsSub => BoolVal(a.isSub)
    case IsAdmin => BoolVal(a.isAdmin)
    case IsModer => BoolVal(a.isModer)
    case Created => DateVal(a.created)
  }

  /** Attribute access on a row by name; None stands for Python's AttributeError. */
  function GetAttr(a: Account, name: string): (r: Option<Value>)
    ensures r.Some? <==> ColumnNamed(name).Some?
    ensures r.Some? ==> r.value == Get(a, ColumnNamed(name).value)
  {
    match ColumnNamed(name)
    case Some(c) => Some(Get(a, c))
    case None => None
  }

  /**
   * The values an UPDATE ... SET or an INSERT may carry: at least one column,
   * not the primary key, each with a value that fits and that the database accepts.
   */
  predicate Writable(fields: map<Column, Value>)
  {
    |fields| > 0 && Id !in fields && forall c :: c in fields ==> Fits(c, fields[c]) && Bindable(fields[c])
  }

  /** The row with the named columns overwritten and every other column kept. */
  function Assign(a: Account, fields: map<Column, Value>): (r: Account)
    requires Writable(fields)
    ensures r.id == a.id
    ensures forall c :: Get(r, c) == if c in fields then fields[c] else Get(a, c)
  {
    OverwriteColumns(a, fields);
    Overwrite(a, fields)
  }

  function Overwrite(a: Account, fields: map<Column, Value>): Account
    requires Writable(fields)
  {
    Account(
      a.id,
      if Email in fields then fields[Email].s else a.email,
      if PasswordHashed in fields then fields[PasswordHashed].b else a.passwordHashed,
      if VerificationCode in fields then fields[VerificationCode].s else a.verificationCode,
      if IsVerified in fields then fields[IsVerified].flag else a.isVerified,
      if PortfolioId in fields then
        (if fields[PortfolioId].IntVal? then Some(fields[PortfolioId].i) else None)
      else a.portfolioId,
      if IsSub in fields then fields[IsSub].flag else a.isSub,
      if IsAdmin in fields then fields[IsAdmin].flag else a.isAdmin,
      if IsModer in fields then fields[IsModer].flag else a.isModer,
      if Created in fields then fields[Created].day else a.created)
  }

  lemma OverwriteColumns(a: Account, fields: map<Column, Value>)
    requires Writable(fields)
    ensures forall c :: Get(Overwrite(a, fields), c) == if c in fields then fields[c] else Get(a, c)
  {
    var r := Overwrite(a, fields);
    forall c ensures Get(r, c) == if c in fields then fields[c] else Get(a, c) {
      if c in fields {
        assert Fits(c, fields[c]);
      }
    }
  }

  /** The column defaults of a new row, before the inserted values are applied. */
  function Blank(id: int, today: Date): Account
  {
    Account(id, "", [], "", false, None, false, false, false, today)
  }

  /** Whether an INSERT with these values succeeds: writable, and every NOT NULL column without a default present. */
  predicate Insertable(data: map<Column, Value>)
  {
    Writable(data) && Email in data && PasswordHashed in data && VerificationCode in data
  }

  /**
   * The row an INSERT creates under primary key `id`; `today` is the value of
   * the `created` default, which is evaluated once when the model class is defined.
   */
  function NewAccount(id: int, data: map<Column, Value>, today: Date): (r: Account)
    requires Insertable(data)
    ensures r.id == id
    ensures forall c :: c in data ==> Get(r, c) == data[c]
    ensures IsVerified !in data ==> !r.isVerified
    ensures IsSub !in data ==> !r.isSub
    ensures IsAdmin !in data ==> !r.isAdmin
    ensures IsModer !in data ==> !r.isModer
    ensures PortfolioId !in data ==> r.portfolioId == None
    ensures Created !in data ==> r.created == today
  {
    Assign(Blank(id, today), data)
  }

  /** Two rows that agree on every column are the same row. */
  lemma ColumnsDetermineRow(a: Account, b: Account)
    requires forall c :: Get(a, c) == Get(b, c)
    ensures a == b
  {
    assert Get(a, Id) == Get(b, Id) && Get(a, Email) == Get(b, Email);
    assert Get(a, PasswordHashed) == Get(b, PasswordHashed);
    assert Get(a, VerificationCode) == Get(b, VerificationCode);
    assert Get(a, IsVerified) == Get(b, IsVerified) && Get(a, PortfolioId) == Get(b, PortfolioId);
    assert Get(a, IsSub) == Get(b, IsSub) && Get(a, IsAdmin) == Get(b, IsAdmin);
    assert Get(a, IsModer) == Get(b, IsModer) && Get(a, Created) == Get(b, Created);
  }

  /** A filter_by clause the database accepts: each value of the column's type, or None, and in range. */
  predicate Filterable(filter: map<Column, Value>)
  {
    forall c :: c in filter ==> (Fits(c, filter[c]) || filter[c] == NullVal) && Bindable(filter[c])
  }

  /** Whether a row satisfies every equality of a filter_by clause (`= None` reads as `IS NULL`). */
  predicate Matches(a: Account, filter: map<Column, Value>)
  {
    forall c :: c in filter ==> Get(a, c) == filter[c]
  }

  /** The filter `email = e`. */
  function EmailFilter(e: string): (f: map<Column, Value>)
    ensures Filterable(f)
    ensures forall a: Account :: Matches(a, f) <==> a.email == e
  {
    var f := map[Email := StrVal(e)];
    assert forall a: Account :: Matches(a, f) <==> Get(a, Email) == StrVal(e);
    f
  }
}
