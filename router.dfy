/**
 * The request handlers of app/users/router.py as transitions of the account
 * table and the mail queue. A handler guarded by `Depends(get_current_user)`
 * receives the row the guard resolved as `currentUser`. Response bodies are
 * reduced to what they carry besides message text and timestamps.
 */
module Router {
  import opened Wrappers
  import opened Models
  import opened BaseDao
  import opened UserDao
  import opened Tasks
  import Auth
  import Dependencies
  import Numerals

  /** The HTTP exceptions the handlers raise (their classes live in app/exceptions.py, not part of this model). */
  datatype HttpError = UserAlreadyExists | IncorrectEmailOrPassword | InvalidVerificationCode | UserIsNotPresent

  /** What the handler does to the `access_token` cookie. */
  datatype Cookie = Untouched | SetCookie(token: string) | DeleteCookie

  /** A response body: null, a notice (naming an email or not), a token, one row, or a list of rows. */
  datatype Body = NullBody | Notice(email: Option<string>) | AccessToken(token: string) | Row(user: Account) | Rows(users: seq<Account>)

  /**
   * The outcome of a handler: a reply, an HTTP exception propagated to the
   * framework, an exception object returned as the handler's value, or some
   * other exception escaping the handler, which the server answers with a bare 500.
   */
  datatype Response =
    | Reply(status: int, body: Body, cookie: Cookie)
    | Raised(error: HttpError)
    | Returned(error: HttpError)
    | Crashed(exception: string)

  const StatusOk := 200
  const StatusCreated := 201
  const StatusAccepted := 202
  const StatusUnauthorized := 401
  const StatusExpectationFailed := 417
  const StatusServerError := 500

  /** The catch-all failure reply: status 500 and a notice without an email. */
  const Failure := Reply(StatusServerError, Notice(None), Untouched)

  /** The values `add_return_obj` receives on signup. */
  function SignupData(email: string, hashed: Bytes, code: string): (d: map<Column, Value>)
    ensures Insertable(d)
    ensures d.Keys == {Email, PasswordHashed, VerificationCode}
  {
    var d := map[Email := StrVal(email), PasswordHashed := BytesVal(hashed), VerificationCode := StrVal(code)];
    assert Fits(Email, d[Email]) && Fits(PasswordHashed, d[PasswordHashed]) && Fits(VerificationCode, d[VerificationCode]);
    d
  }

  /** A signed-up row: the three given values, every flag false, no portfolio, the `created` default. */
  lemma SignupRow(id: int, email: string, hashed: Bytes, code: string, today: Date)
    ensures NewAccount(id, SignupData(email, hashed, code), today)
         == Account(id, email, hashed, code, false, None, false, false, false, today)
  {
    var a := NewAccount(id, SignupData(email, hashed, code), today);
    var b := Account(id, email, hashed, code, false, None, false, false, false, today);
    assert Get(a, Email) == StrVal(email) && Get(a, PasswordHashed) == BytesVal(hashed);
    assert Get(a, VerificationCode) == StrVal(code);
    ColumnsDetermineRow(a, b);
  }

  /** One-column SET lists used by the handlers. */
  function PasswordField(hashed: Bytes): (f: map<Column, Value>)
    ensures Writable(f) && f.Keys == {PasswordHashed} && f[PasswordHashed] == BytesVal(hashed)
  {
    var f := map[PasswordHashed := BytesVal(hashed)];
    assert Fits(PasswordHashed, f[PasswordHashed]);
    f
  }

  function CodeField(code: string): (f: map<Column, Value>)
    ensures Writable(f) && f.Keys == {VerificationCode} && f[VerificationCode] == StrVal(code)
  {
    var f := map[VerificationCode := StrVal(code)];
    assert Fits(VerificationCode, f[VerificationCode]);
    f
  }

  function EmailField(email: string): (f: map<Column, Value>)
    ensures Writable(f) && f.Keys == {Email} && f[Email] == StrVal(email)
  {
    var f := map[Email := StrVal(email)];
    assert Fits(Email, f[Email]);
    f
  }

  /** The SET list of `update_portfolio_id`; the database refuses it for an id outside the INTEGER range. */
  function PortfolioField(portfolioId: int): (f: map<Column, Value>)
    ensures Writable(f) <==> Int32Min <= portfolioId <= Int32Max
    ensures f.Keys == {PortfolioId} && f[PortfolioId] == IntVal(portfolioId)
  {
    var f := map[PortfolioId := IntVal(portfolioId)];
    assert Fits(PortfolioId, f[PortfolioId]);
    f
  }

  // ---------------------------------------------------------------- signup

  /** Whether signup refuses the email, as written: `find_one_or_none` found a row. */
  predicate SignupRejects(rows: map<nat, Account>, email: string)
    ensures SignupRejects(rows, email) <==> |MatchIds(rows, EmailFilter(email))| == 1
  {
    FindUnique(rows, EmailFilter(email)).Some?
  }

  /** Whether signup refuses the email, as intended: some row already has it. */
  predicate SignupRejectsCorrected(rows: map<nat, Account>, email: string)
    ensures SignupRejectsCorrected(rows, email) <==> MatchIds(rows, EmailFilter(email)) != {}
  {
    FindFirst(rows, EmailFilter(email)).Some?
  }

  /** The corrected check refuses exactly the emails some row holds. */
  lemma SignupRejectsCorrectedIff(rows: map<nat, Account>, email: string)
    ensures SignupRejectsCorrected(rows, email) <==> exists k :: k in rows && rows[k].email == email
  {
    if exists k :: k in rows && rows[k].email == email {
      var k :| k in rows && rows[k].email == email;
      assert k in MatchIds(rows, EmailFilter(email));
    }
  }

  /** Two rows with the same email, as a rename produces (see `RenameCanDuplicateEmail`). */
  function Twins(): map<nat, Account>
  {
    map[1 := Blank(1, 0).(email := "a@x"), 2 := Blank(2, 0).(email := "a@x")]
  }

  /** With two rows holding an email, the check as written lets a third signup with it through. */
  lemma DuplicateEmailsPassSignupCheck()
    ensures !SignupRejects(Twins(), "a@x")
    ensures SignupRejectsCorrected(Twins(), "a@x")
  {
    var rows := Twins();
    assert 1 in MatchIds(rows, EmailFilter("a@x")) && 2 in MatchIds(rows, EmailFilter("a@x"));
    assert {1, 2} <= MatchIds(rows, EmailFilter("a@x"));
  }

  /**
   * `signup_user`: refused (the raised UserAlreadyExists is swallowed, so the
   * handler returns null; so does an insert the exhausted id sequence refuses)
   * or one new unverified row and one message with its code.
   */
  method SignupUser(db: UserTable, outbox: MailQueue, h: Auth.Hasher, email: string, password: Bytes, salt: Bytes)
    returns (resp: Response)
    requires db.Valid()
    modifies db, outbox
    ensures db.Valid()
    ensures SignupRejects(old(db.rows), email) || old(db.nextId) > Int32Max ==>
      && resp == Reply(StatusOk, NullBody, Untouched)
      && db.rows == old(db.rows) && db.nextId == old(db.nextId) && outbox.sent == old(outbox.sent)
    ensures !SignupRejects(old(db.rows), email) && old(db.nextId) <= Int32Max ==>
      && resp == Reply(StatusCreated, Notice(Some(email)), Untouched)
      && old(db.nextId) !in old(db.rows) && db.nextId == old(db.nextId) + 1
      && exists code :: IsCode(code, DefaultCodeLength)
           && db.rows == old(db.rows)[old(db.nextId) :=
                Account(old(db.nextId), email, Auth.GetPasswordHash(h, password, salt), code, false, None, false, false, false, db.today)]
           && outbox.sent == old(outbox.sent) + [Message(email, code)]
  {
    var existing := db.FindOneOrNone(EmailFilter(email));
    if existing.Some? {
      resp := Reply(StatusOk, NullBody, Untouched);
    } else {
      var hashed := Auth.GetPasswordHash(h, password, salt);
      var code := CreateVerificationCode();
      SignupRow(db.nextId, email, hashed, code, db.today);
      var user := db.AddReturnObj(SignupData(email, hashed, code));
      if user.None? {
        // `user.email` on None raises AttributeError, which the catch-all swallows
        resp := Reply(StatusOk, NullBody, Untouched);
      } else {
        outbox.SendVerifyMessage(user.value.email, code);
        resp := Reply(StatusCreated, Notice(Some(email)), Untouched);
      }
    }
  }

  /** `signup_user` with the intended check: any row holding the email refuses the signup. */
  method SignupUserCorrected(db: UserTable, outbox: MailQueue, h: Auth.Hasher, email: string, password: Bytes, salt: Bytes)
    returns (resp: Response)
    requires db.Valid()
    modifies db, outbox
    ensures db.Valid()
    ensures SignupRejectsCorrected(old(db.rows), email) || old(db.nextId) > Int32Max ==>
      && resp == Reply(StatusOk, NullBody, Untouched)
      && db.rows == old(db.rows) && db.nextId == old(db.nextId) && outbox.sent == old(outbox.sent)
    ensures !SignupRejectsCorrected(old(db.rows), email) && old(db.nextId) <= Int32Max ==>
      && (forall k :: k in old(db.rows) ==> old(db.rows)[k].email != email)
      && resp == Reply(StatusCreated, Notice(Some(email)), Untouched)
      && old(db.nextId) !in old(db.rows) && db.nextId == old(db.nextId) + 1
      && exists code :: IsCode(code, DefaultCodeLength)
           && db.rows == old(db.rows)[old(db.nextId) :=
                Account(old(db.nextId), email, Auth.GetPasswordHash(h, password, salt), code, false, None, false, false, false, db.today)]
           && outbox.sent == old(outbox.sent) + [Message(email, code)]
  {
    SignupRejectsCorrectedIff(db.rows, email);
    var existing := db.FindObj(EmailFilter(email));
    if existing.Some? {
      resp := Reply(StatusOk, NullBody, Untouched);
    } else {
      var hashed := Auth.GetPasswordHash(h, password, salt);
      var code := CreateVerificationCode();
      SignupRow(db.nextId, email, hashed, code, db.today);
      var user := db.AddReturnObj(SignupData(email, hashed, code));
      if user.None? {
        // `user.email` on None raises AttributeError, which the catch-all swallows
        resp := Reply(StatusOk, NullBody, Untouched);
      } else {
        outbox.SendVerifyMessage(user.value.email, code);
        resp := Reply(StatusCreated, Notice(Some(email)), Untouched);
      }
    }
  }

  // ---------------------------------------------------------------- verify_email

  /** `verify_email`: 500 for an unknown email, 417 for a wrong code, else every row with the email becomes verified. */
  method VerifyEmail(db: UserTable, email: string, code: string) returns (resp: Response)
    requires db.Valid()
    modifies db
    ensures db.Valid() && db.nextId == old(db.nextId)
    ensures var found := FindFirst(old(db.rows), EmailFilter(email));
      && (found.None? ==> resp == Failure && db.rows == old(db.rows))
      && (found.Some? && code != found.value.verificationCode ==>
            resp == Reply(StatusExpectationFailed, Notice(Some(email)), Untouched) && db.rows == old(db.rows))
      && (found.Some? && code == found.value.verificationCode ==>
            resp == Reply(StatusAccepted, Notice(Some(email)), Untouched)
            && db.rows == WithVerification(old(db.rows), email, true))
  {
    var found := db.FindObj(EmailFilter(email));
    if found.None? {
      resp := Failure;
    } else if code != found.value.verificationCode {
      resp := Reply(StatusExpectationFailed, Notice(Some(email)), Untouched);
    } else {
      ghost var k :| k in MatchIds(db.rows, EmailFilter(email)) && db.rows[k] == found.value;
      assert found.value.email == email;
      UpdateVerificationStatus(db, found.value.email);
      resp := Reply(StatusAccepted, Notice(Some(email)), Untouched);
    }
  }

  // ---------------------------------------------------------------- login / logout

  /** The token a login issues for row `id` at instant `now`: signed for `sub = str(id)`, expiring 24 hours later. */
  function LoginToken(codec: Auth.JwtCodec, id: int, now: Auth.Instant): (token: string)
    ensures Auth.CodecSound(codec) ==>
      && token != ""
      && codec.decode(token) == Some(map["sub" := Auth.StrClaim(Numerals.IntToString(id)),
                                         "exp" := Auth.NumClaim(Auth.WholeSeconds(now) + Auth.TokenLifetime)])
  {
    Auth.CreateAccessToken(codec, Dependencies.SubjectClaims(id), now)
  }

  /**
   * `login_user`, as written: a token only for the row `authenticate_user`
   * returns; every refusal falls to the catch-all 500. The 401 branch for an
   * unverified row cannot be reached, because `authenticate_user` already
   * refuses unverified rows.
   */
  method LoginUser(db: UserTable, h: Auth.Hasher, codec: Auth.JwtCodec, email: string, password: Bytes, now: Auth.Instant)
    returns (resp: Response)
    ensures resp.Reply? && resp.status != StatusUnauthorized
    ensures resp.status == StatusOk <==> Auth.AuthenticateUser(h, db.rows, email, password).Some?
    ensures resp.status != StatusOk ==> resp == Failure
    ensures resp.status == StatusOk ==> var u := Auth.AuthenticateUser(h, db.rows, email, password).value;
      resp == Reply(StatusOk, AccessToken(LoginToken(codec, u.id, now)), SetCookie(LoginToken(codec, u.id, now)))
  {
    var user := Auth.AuthenticateUser(h, db.rows, email, password);
    if user.None? {
      resp := Failure;
    } else if !user.value.isVerified {
      resp := Reply(StatusUnauthorized, Notice(Some(email)), Untouched);
    } else {
      var token := LoginToken(codec, user.value.id, now);
      resp := Reply(StatusOk, AccessToken(token), SetCookie(token));
    }
  }

  /** `login_user` with the credential check separated from the verified flag, so the 401 branch is live. */
  method LoginUserCorrected(db: UserTable, h: Auth.Hasher, codec: Auth.JwtCodec, email: string, password: Bytes, now: Auth.Instant)
    returns (resp: Response)
    ensures resp.Reply?
    ensures Auth.CheckCredentials(h, db.rows, email, password).None? ==> resp == Failure
    ensures resp.status == StatusUnauthorized <==>
      Auth.CheckCredentials(h, db.rows, email, password).Some? && !Auth.CheckCredentials(h, db.rows, email, password).value.isVerified
    ensures resp.status == StatusOk <==> Auth.AuthenticateUser(h, db.rows, email, password).Some?
    ensures resp.status == StatusOk ==> var u := Auth.AuthenticateUser(h, db.rows, email, password).value;
      resp == Reply(StatusOk, AccessToken(LoginToken(codec, u.id, now)), SetCookie(LoginToken(codec, u.id, now)))
  {
    Auth.AuthenticateIsCredentialsAndVerified(h, db.rows, email, password);
    var user := Auth.CheckCredentials(h, db.rows, email, password);
    if user.None? {
      resp := Failure;
    } else if !user.value.isVerified {
      resp := Reply(StatusUnauthorized, Notice(Some(email)), Untouched);
    } else {
      var token := LoginToken(codec, user.value.id, now);
      resp := Reply(StatusOk, AccessToken(token), SetCookie(token));
    }
  }

  /**
   * `logout_user`, as written: the cookie is deleted on the temporary response
   * object, but the handler returns a new JSONResponse, which the framework
   * sends as it is; the reply is 200 and the cookie stays.
   */
  method LogoutUser() returns (resp: Response)
    ensures resp == Reply(StatusOk, Notice(None), Untouched)
  {
    resp := Reply(StatusOk, Notice(None), Untouched);
  }

  /** `logout_user` as intended: the returned reply itself deletes the cookie. */
  method LogoutUserCorrected() returns (resp: Response)
    ensures resp == Reply(StatusOk, Notice(None), DeleteCookie)
  {
    resp := Reply(StatusOk, Notice(None), DeleteCookie);
  }

  // ---------------------------------------------------------------- guarded handlers

  /**
   * `delete_user`, as written: remove exactly the caller's row and reply 200;
   * as in `logout_user`, the cookie deletion is made on an object the reply
   * never carries, so the cookie stays.
   */
  method DeleteUser(db: UserTable, currentUser: Account) returns (resp: Response)
    requires db.Valid()
    modifies db
    ensures db.Valid() && db.nextId == old(db.nextId)
    ensures currentUser.id >= 0 ==> db.rows == old(db.rows) - {currentUser.id}
    ensures currentUser.id < 0 ==> db.rows == old(db.rows)
    ensures resp == Reply(StatusOk, Notice(Some(currentUser.email)), Untouched)
  {
    db.Delete(currentUser.id);
    resp := Reply(StatusOk, Notice(Some(currentUser.email)), Untouched);
  }

  /** `delete_user` as intended: the same removal, and the reply deletes the cookie. */
  method DeleteUserCorrected(db: UserTable, currentUser: Account) returns (resp: Response)
    requires db.Valid()
    modifies db
    ensures db.Valid() && db.nextId == old(db.nextId)
    ensures currentUser.id >= 0 ==> db.rows == old(db.rows) - {currentUser.id}
    ensures currentUser.id < 0 ==> db.rows == old(db.rows)
    ensures resp == Reply(StatusOk, Notice(Some(currentUser.email)), DeleteCookie)
  {
    db.Delete(currentUser.id);
    resp := Reply(StatusOk, Notice(Some(currentUser.email)), DeleteCookie);
  }

  /** `read_users_me`: the caller's own row. */
  method ReadUsersMe(currentUser: Account) returns (resp: Response)
    ensures resp == Reply(StatusOk, Row(currentUser), Untouched)
  {
    resp := Reply(StatusOk, Row(currentUser), Untouched);
  }

  /** `find_all()` with no filter returns every row. */
  lemma SelectAll(rows: map<nat, Account>)
    ensures MatchIds(rows, map[]) == rows.Keys
    ensures |Select(rows, map[])| == |rows|
  {
    assert forall k :: k in rows ==> Matches(rows[k], map[]);
  }

  /** `read_users_all`: every row, in id order, for an admin; 401 for anyone else. */
  method ReadUsersAll(db: UserTable, currentUser: Account) returns (resp: Response)
    ensures currentUser.isAdmin ==> resp == Reply(StatusOk, Rows(Select(db.rows, map[])), Untouched)
    ensures !currentUser.isAdmin ==> resp == Reply(StatusUnauthorized, Notice(Some(currentUser.email)), Untouched)
  {
    if currentUser.isAdmin {
      var all := db.FindAll(map[]);
      resp := Reply(StatusOk, Rows(all.value), Untouched);
    } else {
      resp := Reply(StatusUnauthorized, Notice(Some(currentUser.email)), Untouched);
    }
  }

  /**
   * `/auth/all` with its dependency as written: the admin guard raises the
   * AttributeError of reading `role` for every caller, so the handler body
   * never runs.
   */
  method ReadUsersAllBehindGuard(db: UserTable, currentUser: Account) returns (r: Result<Response, Dependencies.GuardError>)
    ensures r == Err(Dependencies.Unhandled("AttributeError"))
  {
    match Dependencies.GetCurrentAdminUserAsWritten(currentUser)
    case Err(e) =>
      r := Err(e);
    case Ok(admin) =>
      var resp := ReadUsersAll(db, admin);
      r := Ok(resp);
  }

  /**
   * `/auth/all` behind the intended admin guard: an admin gets every row, and
   * anyone else the guard's UserIsNotPresent, so the handler's 401 branch is
   * never taken.
   */
  method ReadUsersAllBehindCorrectedGuard(db: UserTable, currentUser: Account) returns (r: Result<Response, Dependencies.GuardError>)
    ensures currentUser.isAdmin ==> r == Ok(Reply(StatusOk, Rows(Select(db.rows, map[])), Untouched))
    ensures !currentUser.isAdmin ==> r == Err(Dependencies.UserIsNotPresent)
    ensures r.Ok? ==> r.value.status != StatusUnauthorized
  {
    match Dependencies.GetCurrentAdminUser(currentUser)
    case Err(e) =>
      r := Err(e);
    case Ok(admin) =>
      var resp := ReadUsersAll(db, admin);
      r := Ok(resp);
  }

  /**
   * `verify_password`: a wrong code raises InvalidVerificationCode, swallowed
   * into the catch-all 500 with no change; the right code stores the new
   * hash on the caller's email and nothing else. The code stays valid.
   */
  method VerifyPassword(db: UserTable, h: Auth.Hasher, currentUser: Account, code: string, passwordNew: Bytes, salt: Bytes)
    returns (resp: Response)
    requires db.Valid()
    modifies db
    ensures db.Valid() && db.nextId == old(db.nextId)
    ensures code != currentUser.verificationCode ==> resp == Failure && db.rows == old(db.rows)
    ensures code == currentUser.verificationCode ==>
      && resp == Reply(StatusOk, Notice(Some(currentUser.email)), Untouched)
      && db.rows == UpdateWhere(old(db.rows), EmailFilter(currentUser.email),
                                PasswordField(Auth.GetPasswordHash(h, passwordNew, salt)))
      && forall k :: k in old(db.rows) ==> db.rows[k].verificationCode == old(db.rows)[k].verificationCode
  {
    if code != currentUser.verificationCode {
      resp := Failure;
    } else {
      var hashed := Auth.GetPasswordHash(h, passwordNew, salt);
      var _ := db.Update(EmailFilter(currentUser.email), PasswordField(hashed));
      forall k | k in old(db.rows) ensures db.rows[k].verificationCode == old(db.rows)[k].verificationCode {
        assert Get(db.rows[k], VerificationCode) == Get(old(db.rows)[k], VerificationCode);
      }
      resp := Reply(StatusOk, Notice(Some(currentUser.email)), Untouched);
    }
  }

  /** `reset_password`: a fresh code for the caller's email, and one message carrying it. */
  method ResetPassword(db: UserTable, outbox: MailQueue, currentUser: Account) returns (resp: Response)
    requires db.Valid()
    modifies db, outbox
    ensures db.Valid() && db.nextId == old(db.nextId)
    ensures resp == Reply(StatusOk, Notice(Some(currentUser.email)), Untouched)
    ensures exists code ::
      && IsCode(code, DefaultCodeLength)
      && db.rows == UpdateWhere(old(db.rows), EmailFilter(currentUser.email), CodeField(code))
      && outbox.sent == old(outbox.sent) + [Message(currentUser.email, code)]
  {
    var code := CreateVerificationCode();
    var _ := db.Update(EmailFilter(currentUser.email), CodeField(code));
    outbox.SendVerifyMessage(currentUser.email, code);
    resp := Reply(StatusOk, Notice(Some(currentUser.email)), Untouched);
  }

  /** One row through `verify_new_email` as written: the rename SET by the old email, then the downgrade by the old email. */
  lemma RenameThenDowngradeRow(a: Account, oldEmail: string, newEmail: string)
    ensures var b := if Matches(a, EmailFilter(oldEmail)) then Assign(a, EmailField(newEmail)) else a;
      var d := if b.email == oldEmail then b.(isVerified := false) else b;
      && d.email == (if a.email == oldEmail then newEmail else a.email)
      && (a.email != oldEmail ==> d == a)
      && (a.email == oldEmail ==> d.isVerified == (a.isVerified && newEmail != oldEmail))
      && forall c :: c != Email && c != IsVerified ==> Get(d, c) == Get(a, c)
  {
    if a.email == oldEmail {
      var b := Assign(a, EmailField(newEmail));
      assert Get(b, Email) == StrVal(newEmail) && Get(b, IsVerified) == Get(a, IsVerified);
    }
  }

  /** The table after `verify_new_email` accepts, as written: rename, then downgrade by the old email. */
  function NewEmailRows(rows: map<nat, Account>, oldEmail: string, newEmail: string): (r: map<nat, Account>)
    ensures r.Keys == rows.Keys
    ensures forall k :: k in rows && rows[k].email == oldEmail ==> r[k].email == newEmail
    ensures forall k :: k in rows && rows[k].email != oldEmail ==> r[k] == rows[k]
    ensures forall k :: k in rows && rows[k].email == oldEmail ==> r[k].isVerified == (rows[k].isVerified && newEmail != oldEmail)
    ensures forall k, c :: k in rows && c != Email && c != IsVerified ==> Get(r[k], c) == Get(rows[k], c)
  {
    var renamed := UpdateWhere(rows, EmailFilter(oldEmail), EmailField(newEmail));
    var r := WithVerification(renamed, oldEmail, false);
    forall k | k in rows
      ensures r[k].email == (if rows[k].email == oldEmail then newEmail else rows[k].email)
      ensures rows[k].email != oldEmail ==> r[k] == rows[k]
      ensures rows[k].email == oldEmail ==> r[k].isVerified == (rows[k].isVerified && newEmail != oldEmail)
      ensures forall c :: c != Email && c != IsVerified ==> Get(r[k], c) == Get(rows[k], c)
    {
      RenameThenDowngradeRow(rows[k], oldEmail, newEmail);
    }
    r
  }

  /** The SET list of the intended rename: the new email, and is_verified false. */
  function RenameFields(newEmail: string): (f: map<Column, Value>)
    ensures Writable(f) && f.Keys == {Email, IsVerified}
    ensures f[Email] == StrVal(newEmail) && f[IsVerified] == BoolVal(false)
  {
    var f := map[Email := StrVal(newEmail), IsVerified := BoolVal(false)];
    assert Fits(Email, f[Email]) && Fits(IsVerified, f[IsVerified]);
    f
  }

  /** The table after `verify_new_email` accepts, as intended: rename and mark unverified in one step. */
  function NewEmailRowsCorrected(rows: map<nat, Account>, oldEmail: string, newEmail: string): (r: map<nat, Account>)
    ensures r.Keys == rows.Keys
    ensures forall k :: k in rows && rows[k].email == oldEmail ==> r[k].email == newEmail && !r[k].isVerified
    ensures forall k :: k in rows && rows[k].email != oldEmail ==> r[k] == rows[k]
    ensures forall k, c :: k in rows && c != Email && c != IsVerified ==> Get(r[k], c) == Get(rows[k], c)
  {
    var f := RenameFields(newEmail);
    var r := UpdateWhere(rows, EmailFilter(oldEmail), f);
    forall k | k in rows && rows[k].email == oldEmail ensures r[k].email == newEmail && !r[k].isVerified {
      assert Get(r[k], Email) == StrVal(newEmail) && Get(r[k], IsVerified) == BoolVal(false);
    }
    r
  }

  /** As written, a row renamed to a different email keeps its verified flag. */
  lemma RenameKeepsVerified(rows: map<nat, Account>, k: nat, newEmail: string)
    requires k in rows && rows[k].isVerified && newEmail != rows[k].email
    ensures var r := NewEmailRows(rows, rows[k].email, newEmail);
      r[k].email == newEmail && r[k].isVerified
  {
    var oldEmail := rows[k].email;
    var renamed := UpdateWhere(rows, EmailFilter(oldEmail), EmailField(newEmail));
    assert Get(renamed[k], IsVerified) == Get(rows[k], IsVerified);
    assert Get(renamed[k], Email) == StrVal(newEmail);
  }

  /** As written, a rename may give two rows the same email. */
  lemma RenameCanDuplicateEmail()
    ensures var rows := map[1 := Blank(1, 0).(email := "a@x"), 2 := Blank(2, 0).(email := "b@x")];
      var r := NewEmailRows(rows, "a@x", "b@x");
      r[1].email == r[2].email
  {
  }

  /**
   * `verify_new_email`: a wrong code is logged and raises InvalidVerificationCode
   * with no change; the right code renames the caller's rows and then
   * downgrades the rows that still hold the old email. No message is sent.
   * The log call passes the row itself as `extra`, and a row is not a mapping:
   * when the configured level lets ERROR records through (`errorsLogged`),
   * building the record raises TypeError, outside any try, before the raise.
   */
  method VerifyNewEmail(db: UserTable, currentUser: Account, code: string, emailNew: string, errorsLogged: bool)
    returns (resp: Response)
    requires db.Valid()
    modifies db
    ensures db.Valid() && db.nextId == old(db.nextId)
    ensures code != currentUser.verificationCode ==>
      && resp == (if errorsLogged then Crashed("TypeError") else Raised(InvalidVerificationCode))
      && db.rows == old(db.rows)
    ensures code == currentUser.verificationCode ==>
      && resp == Reply(StatusOk, Notice(Some(currentUser.email)), Untouched)
      && db.rows == NewEmailRows(old(db.rows), currentUser.email, emailNew)
  {
    if code != currentUser.verificationCode {
      if errorsLogged {
        resp := Crashed("TypeError");
      } else {
        resp := Raised(InvalidVerificationCode);
      }
    } else {
      var _ := db.Update(EmailFilter(currentUser.email), EmailField(emailNew));
      DowngradeVerificationStatus(db, currentUser.email);
      resp := Reply(StatusOk, Notice(Some(currentUser.email)), Untouched);
    }
  }

  /**
   * `verify_new_email` as intended: the renamed rows become unverified, and a
   * wrong code raises InvalidVerificationCode whatever the log level, the log
   * call being given a mapping.
   */
  method VerifyNewEmailCorrected(db: UserTable, currentUser: Account, code: string, emailNew: string) returns (resp: Response)
    requires db.Valid()
    modifies db
    ensures db.Valid() && db.nextId == old(db.nextId)
    ensures code != currentUser.verificationCode ==> resp == Raised(InvalidVerificationCode) && db.rows == old(db.rows)
    ensures code == currentUser.verificationCode ==>
      && resp == Reply(StatusOk, Notice(Some(currentUser.email)), Untouched)
      && db.rows == NewEmailRowsCorrected(old(db.rows), currentUser.email, emailNew)
  {
    if code != currentUser.verificationCode {
      resp := Raised(InvalidVerificationCode);
    } else {
      var _ := db.Update(EmailFilter(currentUser.email), RenameFields(emailNew));
      resp := Reply(StatusOk, Notice(Some(currentUser.email)), Untouched);
    }
  }

  /** `reset_email`: a fresh code and a downgrade for the caller's email, and one message carrying the code. */
  method ResetEmail(db: UserTable, outbox: MailQueue, currentUser: Account) returns (resp: Response)
    requires db.Valid()
    modifies db, outbox
    ensures db.Valid() && db.nextId == old(db.nextId)
    ensures resp == Reply(StatusOk, Notice(Some(currentUser.email)), Untouched)
    ensures exists code ::
      && IsCode(code, DefaultCodeLength)
      && db.rows == WithVerification(UpdateWhere(old(db.rows), EmailFilter(currentUser.email), CodeField(code)),
                                     currentUser.email, false)
      && outbox.sent == old(outbox.sent) + [Message(currentUser.email, code)]
  {
    var code := CreateVerificationCode();
    var _ := db.Update(EmailFilter(currentUser.email), CodeField(code));
    DowngradeVerificationStatus(db, currentUser.email);
    outbox.SendVerifyMessage(currentUser.email, code);
    resp := Reply(StatusOk, Notice(Some(currentUser.email)), Untouched);
  }

  // ---------------------------------------------------------------- update_portfolio_id

  /**
   * `update_portfolio_id`, with no authentication: for an unknown email the
   * handler returns the exception class instead of raising it; otherwise the
   * rows with the email get the new portfolio id, unless the database refuses
   * it as out of the INTEGER range, which `update` swallows: the reply is 200 either way.
   */
  method UpdatePortfolioId(db: UserTable, email: string, portfolioId: int) returns (resp: Response)
    requires db.Valid()
    modifies db
    ensures db.Valid() && db.nextId == old(db.nextId)
    ensures MatchIds(old(db.rows), EmailFilter(email)) == {} ==> resp == Returned(UserIsNotPresent) && db.rows == old(db.rows)
    ensures MatchIds(old(db.rows), EmailFilter(email)) != {} ==>
      && resp == Reply(StatusOk, Notice(Some(email)), Untouched)
      && db.rows == if Int32Min <= portfolioId <= Int32Max
                    then UpdateWhere(old(db.rows), EmailFilter(email), PortfolioField(portfolioId))
                    else old(db.rows)
  {
    var user := db.FindObj(EmailFilter(email));
    if user.None? {
      resp := Returned(UserIsNotPresent);
    } else {
      var _ := db.Update(EmailFilter(email), PortfolioField(portfolioId));
      resp := Reply(StatusOk, Notice(Some(email)), Untouched);
    }
  }

  /** `update_portfolio_id` as intended: an unknown email raises UserIsNotPresent. */
  method UpdatePortfolioIdCorrected(db: UserTable, email: string, portfolioId: int) returns (resp: Response)
    requires db.Valid()
    modifies db
    ensures db.Valid() && db.nextId == old(db.nextId)
    ensures MatchIds(old(db.rows), EmailFilter(email)) == {} ==> resp == Raised(UserIsNotPresent) && db.rows == old(db.rows)
    ensures MatchIds(old(db.rows), EmailFilter(email)) != {} ==>
      && resp == Reply(StatusOk, Notice(Some(email)), Untouched)
      && db.rows == if Int32Min <= portfolioId <= Int32Max
                    then UpdateWhere(old(db.rows), EmailFilter(email), PortfolioField(portfolioId))
                    else old(db.rows)
  {
    var user := db.FindObj(EmailFilter(email));
    if user.None? {
      resp := Raised(UserIsNotPresent);
    } else {
      var _ := db.Update(EmailFilter(email), PortfolioField(portfolioId));
      resp := Reply(StatusOk, Notice(Some(email)), Untouched);
    }
  }

  // ---------------------------------------------------------------- the account lifecycle

  /**
   * Signup, confirmation with the code that was sent, and login, through the
   * handlers as written, for an email no row holds yet: the login succeeds,
   * and at the moment of login the guard resolves its token to the new row,
   * now verified.
   */
  method SignupVerifyLogin(db: UserTable, outbox: MailQueue, h: Auth.Hasher, codec: Auth.JwtCodec,
                           email: string, password: Bytes, salt: Bytes, now: Auth.Instant)
    returns (token: string)
    requires db.Valid() && Auth.HasherSound(h) && Auth.CodecSound(codec)
    requires db.nextId <= Int32Max
    requires forall k :: k in db.rows ==> db.rows[k].email != email
    requires now >= 0
    modifies db, outbox
    ensures db.Valid()
    ensures old(db.nextId) in db.rows
    ensures var u := db.rows[old(db.nextId)];
      && u.email == email && u.isVerified
      && Dependencies.GetCurrentUser(codec, token, now, db.rows) == Ok(u)
  {
    var id := db.nextId;
    assert MatchIds(db.rows, EmailFilter(email)) == {};
    var signup := SignupUser(db, outbox, h, email, password, salt);
    var code := outbox.sent[|outbox.sent| - 1].code;
    ghost var created := db.rows[id];
    assert created.email == email && created.verificationCode == code;
    assert created.passwordHashed == Auth.GetPasswordHash(h, password, salt);
    InsertMatchIds(old(db.rows), id, created, EmailFilter(email));
    assert MatchIds(db.rows, EmailFilter(email)) == {id};
    ghost var before := db.rows;
    var verify := VerifyEmail(db, email, code);
    assert FindFirst(before, EmailFilter(email)) == Some(created);
    assert db.rows == WithVerification(before, email, true);
    WithVerificationKeepsEmailMatches(before, email, true, email);
    assert MatchIds(db.rows, EmailFilter(email)) == {id};
    assert db.rows[id].passwordHashed == created.passwordHashed && db.rows[id].isVerified;
    assert Auth.VerifyPassword(h, Auth.Raw(password), db.rows[id].passwordHashed);
    var login := LoginUser(db, h, codec, email, password, now);
    ghost var u := Auth.AuthenticateUser(h, db.rows, email, password).value;
    assert u == db.rows[id] by {
      var k :| k in MatchIds(db.rows, EmailFilter(email)) && db.rows[k] == u;
    }
    token := login.body.token;
    Dependencies.IssuedTokenResolves(codec, db.rows, id, now, now);
  }
}
