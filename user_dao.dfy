/**
 * The two verification-status updates of UserDAO (app/users/dao.py).
 * Unlike the BaseDAO operations they do not catch exceptions; on the
 * in-memory table an update by email cannot fail, so nothing is raised.
 */
module UserDao {
  import opened Models
  import opened BaseDao

  /** The rows after `UPDATE users SET is_verified = flag WHERE email = email`. */
  function WithVerification(rows: map<nat, Account>, email: string, flag: bool): (r: map<nat, Account>)
    ensures r.Keys == rows.Keys
    ensures forall k :: k in rows ==>
      r[k].isVerified == (if rows[k].email == email then flag else rows[k].isVerified)
    ensures forall k, c :: k in rows && c != IsVerified ==> Get(r[k], c) == Get(rows[k], c)
    ensures KeyedById(rows) ==> KeyedById(r)
  {
    map k | k in rows :: if rows[k].email == email then rows[k].(isVerified := flag) else rows[k]
  }

  /** On one row, setting the flag by email is the generic SET of `is_verified` under an email filter. */
  lemma VerificationRow(a: Account, email: string, flag: bool)
    ensures Writable(map[IsVerified := BoolVal(flag)])
    ensures (if a.email == email then a.(isVerified := flag) else a)
         == (if Matches(a, EmailFilter(email)) then Assign(a, map[IsVerified := BoolVal(flag)]) else a)
  {
    var fields := map[IsVerified := BoolVal(flag)];
    assert Fits(IsVerified, fields[IsVerified]);
    if a.email == email {
      var lhs := a.(isVerified := flag);
      var rhs := Assign(a, fields);
      forall c ensures Get(lhs, c) == Get(rhs, c) {
      }
      ColumnsDetermineRow(lhs, rhs);
    }
  }

  /** The status update is the generic filtered update with an email filter and one field. */
  lemma WithVerificationIsUpdate(rows: map<nat, Account>, email: string, flag: bool)
    ensures Writable(map[IsVerified := BoolVal(flag)])
    ensures WithVerification(rows, email, flag)
         == UpdateWhere(rows, EmailFilter(email), map[IsVerified := BoolVal(flag)])
  {
    var fields := map[IsVerified := BoolVal(flag)];
    assert Fits(IsVerified, fields[IsVerified]);
    var lhs := WithVerification(rows, email, flag);
    var rhs := UpdateWhere(rows, EmailFilter(email), fields);
    forall k | k in rows ensures lhs[k] == rhs[k] {
      VerificationRow(rows[k], email, flag);
    }
  }

  /** Setting the status twice is setting it once. */
  lemma {:induction false} WithVerificationIdempotent(rows: map<nat, Account>, email: string, flag: bool)
    ensures WithVerification(WithVerification(rows, email, flag), email, flag)
         == WithVerification(rows, email, flag)
  {
    var once := WithVerification(rows, email, flag);
    var twice := WithVerification(once, email, flag);
    forall k | k in rows ensures twice[k] == once[k] {
      assert once[k].email == rows[k].email by {
        assert Get(once[k], Email) == Get(rows[k], Email);
      }
    }
  }

  /** With no row holding that email, nothing changes. */
  lemma WithVerificationNoMatch(rows: map<nat, Account>, email: string, flag: bool)
    requires forall k :: k in rows ==> rows[k].email != email
    ensures WithVerification(rows, email, flag) == rows
  {
  }

  /** Changing the status moves no row in or out of an email filter. */
  lemma WithVerificationKeepsEmailMatches(rows: map<nat, Account>, email: string, flag: bool, other: string)
    ensures MatchIds(WithVerification(rows, email, flag), EmailFilter(other)) == MatchIds(rows, EmailFilter(other))
  {
    var r := WithVerification(rows, email, flag);
    forall k | k in rows ensures r[k].email == rows[k].email {
      assert Get(r[k], Email) == Get(rows[k], Email);
    }
  }

  /** `update_verification_status(email)`: every row with that email becomes verified. */
  method UpdateVerificationStatus(t: UserTable, email: string)
    requires t.Valid()
    modifies t
    ensures t.Valid() && t.nextId == old(t.nextId)
    ensures t.rows == WithVerification(old(t.rows), email, true)
  {
    t.rows := WithVerification(t.rows, email, true);
  }

  /** `downgrade_verification_status(email)`: every row with that email becomes unverified. */
  method DowngradeVerificationStatus(t: UserTable, email: string)
    requires t.Valid()
    modifies t
    ensures t.Valid() && t.nextId == old(t.nextId)
    ensures t.rows == WithVerification(old(t.rows), email, false)
  {
    t.rows := WithVerification(t.rows, email, false);
  }
}
