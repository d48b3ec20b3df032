/**
 * The account operations of `server.js` as changes to the users table: each function is
 * what the operation's pre-check and statement do to the table the live handle holds,
 * before anything is saved. The lemmas state what the operations promise.
 */
module Accounts {
  import opened Schema
  import opened Rows

  /** The exceptions `server.js` throws, one per message. */
  datatype Error =
    | NotInitialized          // 'Database not initialized'
    | EmailExists             // 'Email already exists'
    | InvalidCredentials      // 'Invalid email or password'
    | EmailNotFound           // 'Email not found'
    | InvalidOrExpiredToken   // 'Invalid or expired reset token'
    | UserNotFound            // 'User not found'
    | NotNullFailed           // the engine's NOT NULL constraint on users.password
    | UniqueFailed            // the engine's UNIQUE constraint on users.email
    | RuntimeUnavailable      // the SQL engine runtime could not be loaded
    | CorruptedDatabase       // 'Failed to load existing database: Corrupted database detected'
    | StoreReadFailed         // 'Failed to load database: ...'
    | StoreWriteFailed        // 'Failed to save database: ...'
    | StoreDeleteFailed       // the delete request's error, rethrown by clearDatabase

  datatype Result<T> = Ok(value: T) | Err(error: Error)

  /** One Javascript value in a result row: a number, a string, null, or undefined. */
  datatype Value = Integer(i: int) | Text(s: string) | Null | Undefined

  /** What `formatUserData` builds: an object with exactly these four fields. */
  datatype PublicUser = PublicUser(id: Value, name: Value, email: Value, role: Value)

  function TextOrNull(o: Option<string>): Value {
    match o
    case None => Null
    case Some(s) => Text(s)
  }

  /** `user[i]` of a Javascript array: undefined past its end. */
  function Cell(user: seq<Value>, i: nat): Value {
    if i < |user| then user[i] else Undefined
  }

  /** `formatUserData(user)`: null for a missing row, otherwise positions 0 to 3 of the
      array as id, name, email and role, whatever those positions hold. */
  function FormatUserData(user: Option<seq<Value>>): (r: Option<PublicUser>)
    ensures r.None? <==> user.None?
    ensures user.Some? && |user.value| >= 4 ==>
      r == Some(PublicUser(user.value[0], user.value[1], user.value[2], user.value[3]))
  {
    match user
    case None => None
    case Some(u) => Some(PublicUser(Cell(u, 0), Cell(u, 1), Cell(u, 2), Cell(u, 3)))
  }

  predicate HasEmail(rows: seq<Row>, email: string) {
    exists k :: 0 <= k < |rows| && rows[k].email == email
  }

  predicate HasId(rows: seq<Row>, id: int) {
    exists k :: 0 <= k < |rows| && rows[k].id == id
  }

  /** An `INSERT INTO users` of the named columns: the engine checks NOT NULL on the
      password, then UNIQUE on the email, and gives the row the next AUTOINCREMENT id. */
  function Insert(t: Table, name: string, email: string, password: Option<string>,
                  phone: Option<string>, role: string): (r: Result<Table>)
    ensures password.None? ==> r == Err(NotNullFailed)
    ensures password.Some? && HasEmail(t.rows, email) ==> r == Err(UniqueFailed)
    ensures password.Some? && !HasEmail(t.rows, email) ==>
      r == Ok(Table(t.rows + [Row(t.lastId + 1, name, email, password.value, phone, role, None, None)],
                    t.lastId + 1))
  {
    if password.None? then Err(NotNullFailed)
    else if CountWhere(t.rows, EmailIs(email)) > 0 then Err(UniqueFailed)
    else Ok(Table(t.rows + [Row(t.lastId + 1, name, email, password.value, phone, role, None, None)],
                  t.lastId + 1))
  }

  /** `registerUser`'s table change: the email pre-check, then an insert with role 'user'. */
  function Register(t: Table, name: string, email: string, password: string,
                    phone: Option<string>): (r: Result<Table>)
    ensures r.Err? ==> r.error == EmailExists && HasEmail(t.rows, email)
    ensures r.Ok? ==> r.value.lastId == t.lastId + 1 && |r.value.rows| == |t.rows| + 1
  {
    if CountWhere(t.rows, EmailIs(email)) > 0 then Err(EmailExists)
    else Insert(t, name, email, Some(password), phone, UserRole)
  }

  /** The columns `registerUser` reads back for the new account, in its SELECT order. */
  function RegisteredColumns(u: Row): seq<Value> {
    [Integer(u.id), Text(u.name), Text(u.email), TextOrNull(u.phone), Text(u.role)]
  }

  /** What `registerUser` returns: the first row with the email, read back as
      id, name, email, phone, role and handed to `formatUserData`. */
  function RegisteredUser(t: Table, email: string): (r: Option<PublicUser>)
    ensures r.None? <==> !HasEmail(t.rows, email)
  {
    match IndexOfFirst(t.rows, EmailIs(email))
    case None => None
    case Some(k) => FormatUserData(Some(RegisteredColumns(t.rows[k])))
  }

  /** The row `registerUser`'s insert adds. */
  function NewAccount(t: Table, name: string, email: string, password: string, phone: Option<string>): Row {
    Row(t.lastId + 1, name, email, password, phone, UserRole, None, None)
  }

  /** Registration fails exactly when the email is taken; otherwise it appends exactly one
      row, with the next id and role 'user', and that email is then held by that row alone. */
  lemma RegisterSpec(t: Table, name: string, email: string, password: string, phone: Option<string>)
    ensures Register(t, name, email, password, phone).Err? <==> HasEmail(t.rows, email)
    ensures Register(t, name, email, password, phone).Err? ==>
      Register(t, name, email, password, phone).error == EmailExists
    ensures Register(t, name, email, password, phone).Ok? ==>
      var t' := Register(t, name, email, password, phone).value;
      t'.rows == t.rows + [NewAccount(t, name, email, password, phone)] &&
      t'.lastId == t.lastId + 1 &&
      CountWhere(t'.rows, EmailIs(email)) == 1
  {
    if !HasEmail(t.rows, email) {
      var n := NewAccount(t, name, email, password, phone);
      assert Matches(EmailIs(email), n);
      CountAppend(t.rows, [n], EmailIs(email));
    } else {
      var k :| 0 <= k < |t.rows| && t.rows[k].email == email;
      assert Matches(EmailIs(email), t.rows[k]);
    }
  }

  /** Appending a row whose id is the next AUTOINCREMENT value and whose email is new keeps
      the table well formed. */
  lemma AppendKeepsWellFormed(t: Table, n: Row)
    requires WellFormed(t) && n.id == t.lastId + 1 && !HasEmail(t.rows, n.email)
    ensures WellFormed(Table(t.rows + [n], t.lastId + 1))
  {
  }

  /** A successful registration leaves the table well formed. */
  lemma RegisterKeepsWellFormed(t: Table, name: string, email: string, password: string, phone: Option<string>)
    requires WellFormed(t) && Register(t, name, email, password, phone).Ok?
    ensures WellFormed(Register(t, name, email, password, phone).value)
  {
    RegisterSpec(t, name, email, password, phone);
    AppendKeepsWellFormed(t, NewAccount(t, name, email, password, phone));
  }

  lemma {:induction false} CountAppend(a: seq<Row>, b: seq<Row>, c: Condition)
    ensures CountWhere(a + b, c) == CountWhere(a, c) + CountWhere(b, c)
  {
    if |a| == 0 {
      assert a + b == b;
    } else {
      assert (a + b)[1..] == a[1..] + b;
      CountAppend(a[1..], b, c);
    }
  }

  /** A second registration with the same email is refused, and the one row with that
      email is all there is. */
  lemma DuplicateRegistrationRejected(t: Table, name: string, email: string, password: string,
                                      phone: Option<string>, name2: string, password2: string,
                                      phone2: Option<string>)
    requires Register(t, name, email, password, phone).Ok?
    ensures var t' := Register(t, name, email, password, phone).value;
      Register(t', name2, email, password2, phone2) == Err(EmailExists) &&
      CountWhere(t'.rows, EmailIs(email)) == 1
  {
    RegisterSpec(t, name, email, password, phone);
    var t' := Register(t, name, email, password, phone).value;
    assert t'.rows[|t'.rows| - 1].email == email;
    RegisterSpec(t', name2, email, password2, phone2);
  }

  /** `registerUser` hands `formatUserData` the row (id, name, email, phone, role), so the
      object it returns carries the phone in its `role` field. */
  lemma RegisterReturnsPhoneAsRole(t: Table, name: string, email: string, password: string,
                                   phone: Option<string>)
    requires Register(t, name, email, password, phone).Ok?
    ensures RegisteredUser(Register(t, name, email, password, phone).value, email) ==
      Some(PublicUser(Integer(t.lastId + 1), Text(name), Text(email), TextOrNull(phone)))
  {
    RegisterSpec(t, name, email, password, phone);
    var t' := Register(t, name, email, password, phone).value;
    var p := EmailIs(email);
    var k := IndexOfFirst(t'.rows, p);
    assert Matches(p, t'.rows[|t.rows|]);
    assert forall j :: 0 <= j < |t.rows| ==> t'.rows[j] == t.rows[j];
    assert k == Some(|t.rows|);
  }

  /** `loginUser`'s query: the first row matching both email and password exactly,
      projected to id, name, email, role. */
  function Login(t: Table, email: string, password: string): (r: Result<PublicUser>)
    ensures r.Ok? <==> exists k :: 0 <= k < |t.rows| && t.rows[k].email == email && t.rows[k].password == password
    ensures r.Err? ==> r.error == InvalidCredentials
    ensures r.Ok? ==>
      exists k :: 0 <= k < |t.rows| && t.rows[k].email == email && t.rows[k].password == password &&
        r.value == PublicUser(Integer(t.rows[k].id), Text(t.rows[k].name), Text(email), Text(t.rows[k].role))
  {
    match IndexOfFirst(t.rows, Credentials(email, password))
    case None => Err(InvalidCredentials)
    case Some(k) =>
      var u := t.rows[k];
      Ok(FormatUserData(Some([Integer(u.id), Text(u.name), Text(u.email), Text(u.role)])).value)
  }

  /** A freshly registered account can log in with its password and is reported with role 'user'. */
  lemma RegisterThenLogin(t: Table, name: string, email: string, password: string, phone: Option<string>)
    requires Register(t, name, email, password, phone).Ok?
    ensures Login(Register(t, name, email, password, phone).value, email, password) ==
      Ok(PublicUser(Integer(t.lastId + 1), Text(name), Text(email), Text(UserRole)))
  {
    RegisterSpec(t, name, email, password, phone);
    var t' := Register(t, name, email, password, phone).value;
    var p := Credentials(email, password);
    assert Matches(p, t'.rows[|t.rows|]);
    assert forall j :: 0 <= j < |t.rows| ==> t'.rows[j] == t.rows[j];
    assert IndexOfFirst(t'.rows, p) == Some(|t.rows|);
  }

  /** `addUser`'s table change: the email pre-check, then an insert that names no password. */
  function AddUser(t: Table, name: string, email: string, role: string): (r: Result<Table>)
    ensures r.Err?
    ensures r.error == (if HasEmail(t.rows, email) then EmailExists else NotNullFailed)
  {
    if CountWhere(t.rows, EmailIs(email)) > 0 then Err(EmailExists)
    else Insert(t, name, email, None, None, role)
  }

  /** A reset token lives one hour, in milliseconds. */
  const ResetTokenLifetime := 3600000

  /** `generateResetToken`'s table change: the email pre-check, then the token and an expiry
      one hour after `now` on the rows with that email. The source stores the expiry as an
      ISO-8601 string and `resetPassword` compares it, as text, with the engine's
      CURRENT_TIMESTAMP ('YYYY-MM-DD HH:MM:SS'); that text comparison is not modelled,
      expiries are compared as numbers. */
  function IssueResetToken(t: Table, email: string, token: string, now: int): (r: Result<Table>)
    ensures r.Err? <==> !HasEmail(t.rows, email)
    ensures r.Err? ==> r.error == EmailNotFound
    ensures r.Ok? ==> r.value.lastId == t.lastId && |r.value.rows| == |t.rows|
  {
    if CountWhere(t.rows, EmailIs(email)) == 0 then Err(EmailNotFound)
    else Ok(t.(rows := UpdateWhere(t.rows, EmailIs(email), StampToken(token, now + ResetTokenLifetime))))
  }

  /** Issuing fails exactly for an unknown email; otherwise only that email's row changes,
      and it gets the token and the expiry `now` + one hour. */
  lemma IssueResetTokenSpec(t: Table, email: string, token: string, now: int)
    requires WellFormed(t)
    ensures IssueResetToken(t, email, token, now).Err? <==> !HasEmail(t.rows, email)
    ensures IssueResetToken(t, email, token, now).Err? ==>
      IssueResetToken(t, email, token, now).error == EmailNotFound
    ensures IssueResetToken(t, email, token, now).Ok? ==>
      var t' := IssueResetToken(t, email, token, now).value;
      WellFormed(t') && t'.lastId == t.lastId && |t'.rows| == |t.rows| &&
      forall k :: 0 <= k < |t.rows| ==>
        t'.rows[k] == if t.rows[k].email == email
                      then t.rows[k].(resetToken := Some(token), resetExpires := Some(now + ResetTokenLifetime))
                      else t.rows[k]
  {
    if HasEmail(t.rows, email) {
      var t' := IssueResetToken(t, email, token, now).value;
      assert forall k :: 0 <= k < |t.rows| ==> t'.rows[k].id == t.rows[k].id && t'.rows[k].email == t.rows[k].email;
    }
  }

  /** `resetPassword`'s table change: find the first row holding the unexpired token, then
      set the new password and clear token and expiry on the row with that id. */
  function Redeem(t: Table, token: string, newPassword: string, now: int): (r: Result<Table>)
    ensures r.Err? ==> r.error == InvalidOrExpiredToken
    ensures r.Ok? ==> r.value.lastId == t.lastId && |r.value.rows| == |t.rows|
    ensures r.Ok? ==> exists k :: 0 <= k < |t.rows| && Matches(TokenLive(token, now), t.rows[k])
  {
    match IndexOfFirst(t.rows, TokenLive(token, now))
    case None => Err(InvalidOrExpiredToken)
    case Some(k) =>
      var id := t.rows[k].id;
      Ok(t.(rows := UpdateWhere(t.rows, IdIs(id), ResetPassword(newPassword))))
  }

  /** Redemption fails exactly when no row holds the token unexpired; otherwise exactly one
      row, one that held it, gets the new password with token and expiry cleared. */
  lemma RedeemSpec(t: Table, token: string, newPassword: string, now: int)
    requires WellFormed(t)
    ensures Redeem(t, token, newPassword, now).Err? <==>
      forall k :: 0 <= k < |t.rows| ==> !Matches(TokenLive(token, now), t.rows[k])
    ensures Redeem(t, token, newPassword, now).Err? ==>
      Redeem(t, token, newPassword, now).error == InvalidOrExpiredToken
    ensures Redeem(t, token, newPassword, now).Ok? ==>
      var t' := Redeem(t, token, newPassword, now).value;
      WellFormed(t') && t'.lastId == t.lastId && |t'.rows| == |t.rows| &&
      exists k :: 0 <= k < |t.rows| && Matches(TokenLive(token, now), t.rows[k]) &&
        t'.rows[k] == t.rows[k].(password := newPassword, resetToken := None, resetExpires := None) &&
        forall j :: 0 <= j < |t.rows| && j != k ==> t'.rows[j] == t.rows[j]
  {
    var found := IndexOfFirst(t.rows, TokenLive(token, now));
    if found.Some? {
      var k := found.value;
      var t' := RedeemAt(t, token, newPassword, now, k);
      KeysKeepWellFormed(t, t'.rows);
    }
  }

  /** Rows rewritten without touching ids or emails keep the table well formed. */
  lemma KeysKeepWellFormed(t: Table, rows: seq<Row>)
    requires WellFormed(t) && |rows| == |t.rows|
    requires forall j :: 0 <= j < |t.rows| ==> rows[j].id == t.rows[j].id && rows[j].email == t.rows[j].email
    ensures WellFormed(Table(rows, t.lastId))
  {
  }

  /** When the search stops at row `k`, redemption succeeds and rewrites that row alone. */
  lemma RedeemAt(t: Table, token: string, newPassword: string, now: int, k: nat) returns (t': Table)
    requires WellFormed(t) && IndexOfFirst(t.rows, TokenLive(token, now)) == Some(k)
    ensures Redeem(t, token, newPassword, now) == Ok(t')
    ensures t'.lastId == t.lastId && |t'.rows| == |t.rows| && k < |t.rows|
    ensures t'.rows[k] == t.rows[k].(password := newPassword, resetToken := None, resetExpires := None)
    ensures forall j :: 0 <= j < |t.rows| && j != k ==> t'.rows[j] == t.rows[j]
  {
    t' := Redeem(t, token, newPassword, now).value;
    assert Matches(IdIs(t.rows[k].id), t.rows[k]);
    forall j | 0 <= j < |t.rows| && j != k
      ensures t'.rows[j] == t.rows[j]
    {
      assert t.rows[j].id != t.rows[k].id;
    }
  }

  /** A token issued at `issued` for a known email, and held by no other row, is accepted
      at every `now` before `issued` + one hour and refused from then on. */
  lemma TokenExpiry(t: Table, email: string, token: string, issued: int, newPassword: string, now: int)
    requires WellFormed(t) && HasEmail(t.rows, email)
    requires forall k :: 0 <= k < |t.rows| ==> t.rows[k].resetToken != Some(token)
    ensures Redeem(IssueResetToken(t, email, token, issued).value, token, newPassword, now).Ok? <==>
      now < issued + ResetTokenLifetime
  {
    var rows' := IssuedRows(t, email, token, issued);
    RedeemFinds(IssueResetToken(t, email, token, issued).value, token, newPassword, now);
    StampedSearch(t.rows, email, token, issued + ResetTokenLifetime, now);
  }

  /** Searching the stamped rows for the token finds a row exactly when some row has the
      email and `now` is before the stamped expiry. */
  lemma StampedSearch(rows: seq<Row>, email: string, token: string, expires: int, now: int)
    requires forall k :: 0 <= k < |rows| ==> rows[k].resetToken != Some(token)
    ensures IndexOfFirst(UpdateWhere(rows, EmailIs(email), StampToken(token, expires)), TokenLive(token, now)).Some? <==>
      HasEmail(rows, email) && now < expires
  {
    var rows' := UpdateWhere(rows, EmailIs(email), StampToken(token, expires));
    forall j | 0 <= j < |rows|
      ensures Matches(TokenLive(token, now), rows'[j]) <==> rows[j].email == email && now < expires
    {
      StampedRow(rows, email, token, expires, now, j);
    }
  }

  /** Issuing for a known email succeeds, and its rows are the stamped rows. */
  lemma IssuedRows(t: Table, email: string, token: string, issued: int) returns (rows': seq<Row>)
    requires HasEmail(t.rows, email)
    ensures IssueResetToken(t, email, token, issued).Ok?
    ensures rows' == IssueResetToken(t, email, token, issued).value.rows
    ensures rows' == UpdateWhere(t.rows, EmailIs(email), StampToken(token, issued + ResetTokenLifetime))
  {
    var k :| 0 <= k < |t.rows| && t.rows[k].email == email;
    assert Matches(EmailIs(email), t.rows[k]);
    rows' := UpdateWhere(t.rows, EmailIs(email), StampToken(token, issued + ResetTokenLifetime));
  }

  /** Redemption succeeds exactly when the search for an unexpired holder of the token finds one. */
  lemma RedeemFinds(t: Table, token: string, newPassword: string, now: int)
    ensures Redeem(t, token, newPassword, now).Ok? <==> IndexOfFirst(t.rows, TokenLive(token, now)).Some?
  {
  }

  /** After stamping, a row holds `token` unexpired at `now` exactly when it has the
      email and `now` is before the stamped expiry. */
  lemma StampedRow(rows: seq<Row>, email: string, token: string, expires: int, now: int, j: nat)
    requires forall k :: 0 <= k < |rows| ==> rows[k].resetToken != Some(token)
    requires j < |rows|
    ensures Matches(TokenLive(token, now), UpdateWhere(rows, EmailIs(email), StampToken(token, expires))[j]) <==>
      rows[j].email == email && now < expires
  {
    assert Matches(EmailIs(email), rows[j]) <==> rows[j].email == email;
  }

  /** Once redeemed, a token that one row alone held is spent: a second redemption fails. */
  lemma TokenSingleUse(t: Table, token: string, newPassword: string, now: int, later: int, again: string)
    requires WellFormed(t) && Redeem(t, token, newPassword, now).Ok?
    requires forall i, j :: 0 <= i < j < |t.rows| ==> t.rows[i].resetToken != Some(token) || t.rows[j].resetToken != Some(token)
    ensures Redeem(Redeem(t, token, newPassword, now).value, token, again, later) == Err(InvalidOrExpiredToken)
  {
    var k := IndexOfFirst(t.rows, TokenLive(token, now)).value;
    var t' := RedeemAt(t, token, newPassword, now, k);
    forall j | 0 <= j < |t'.rows|
      ensures !Matches(TokenLive(token, later), t'.rows[j])
    {
      if j < k {
        assert t.rows[j].resetToken != Some(token);
      } else if j > k {
        assert t.rows[j].resetToken != Some(token);
      }
    }
  }

  /** After a reset the new password logs in and the old one no longer does. */
  lemma ResetThenLogin(t: Table, email: string, token: string, issued: int, oldPassword: string,
                       newPassword: string, now: int)
    requires WellFormed(t) && HasEmail(t.rows, email)
    requires forall k :: 0 <= k < |t.rows| ==> t.rows[k].resetToken != Some(token)
    requires now < issued + ResetTokenLifetime && oldPassword != newPassword
    ensures var t' := Redeem(IssueResetToken(t, email, token, issued).value, token, newPassword, now);
      t'.Ok? && Login(t'.value, email, newPassword).Ok? &&
      Login(t'.value, email, oldPassword) == Err(InvalidCredentials)
  {
    var k :| 0 <= k < |t.rows| && t.rows[k].email == email;
    var t1 := IssuedAt(t, email, token, issued, k);
    assert Matches(TokenLive(token, now), t1.rows[k]);
    assert forall j :: 0 <= j < k ==> !Matches(TokenLive(token, now), t1.rows[j]);
    FirstAt(t1.rows, TokenLive(token, now), k);
    var t2 := RedeemAt(t1, token, newPassword, now, k);
    KeptRowsKeepEmails(t, t2.rows, k);
    LoginOnlyRow(t2, email, k, oldPassword);
    LoginOnlyRow(t2, email, k, newPassword);
  }

  /** When row `k` alone has the email, logging in with it succeeds exactly for that row's password. */
  lemma LoginOnlyRow(t: Table, email: string, k: nat, password: string)
    requires k < |t.rows| && t.rows[k].email == email
    requires forall j :: 0 <= j < |t.rows| && j != k ==> t.rows[j].email != email
    ensures Login(t, email, password).Ok? <==> t.rows[k].password == password
    ensures Login(t, email, password).Err? ==> Login(t, email, password).error == InvalidCredentials
  {
  }

  /** Rows that differ from a well-formed table's only at row `k` leave that row's email
      on no other row. */
  lemma KeptRowsKeepEmails(t: Table, rows: seq<Row>, k: nat)
    requires WellFormed(t) && k < |t.rows| == |rows|
    requires forall j :: 0 <= j < |t.rows| && j != k ==> rows[j] == t.rows[j]
    ensures forall j :: 0 <= j < |rows| && j != k ==> rows[j].email != t.rows[k].email
  {
    forall j | 0 <= j < |rows| && j != k
      ensures rows[j].email != t.rows[k].email
    {
      EmailsDistinct(t, j, k);
    }
  }

  lemma EmailsDistinct(t: Table, i: nat, j: nat)
    requires WellFormed(t) && i < |t.rows| && j < |t.rows| && i != j
    ensures t.rows[i].email != t.rows[j].email
  {
    if i < j {
      assert t.rows[i].email != t.rows[j].email;
    } else {
      assert t.rows[j].email != t.rows[i].email;
    }
  }

  /** Issuing for the email of row `k` stamps that row alone. */
  lemma IssuedAt(t: Table, email: string, token: string, issued: int, k: nat) returns (t': Table)
    requires WellFormed(t) && k < |t.rows| && t.rows[k].email == email
    ensures IssueResetToken(t, email, token, issued) == Ok(t')
    ensures WellFormed(t') && |t'.rows| == |t.rows|
    ensures t'.rows[k] == t.rows[k].(resetToken := Some(token), resetExpires := Some(issued + ResetTokenLifetime))
    ensures forall j :: 0 <= j < |t.rows| && j != k ==> t'.rows[j] == t.rows[j]
  {
    IssueResetTokenSpec(t, email, token, issued);
    t' := IssueResetToken(t, email, token, issued).value;
  }

  /** `deleteUser`'s table change: the id pre-check, then the delete. */
  function Delete(t: Table, id: int): (r: Result<Table>)
    ensures r.Err? <==> !HasId(t.rows, id)
    ensures r.Err? ==> r.error == UserNotFound
    ensures r.Ok? ==> r.value.lastId == t.lastId && |r.value.rows| < |t.rows|
  {
    if CountWhere(t.rows, IdIs(id)) == 0 then Err(UserNotFound)
    else Ok(t.(rows := DeleteWhere(t.rows, IdIs(id))))
  }

  /** Deletion fails exactly for an unknown id; otherwise exactly that one row is gone,
      every other row is kept and the AUTOINCREMENT counter is untouched. */
  lemma DeleteSpec(t: Table, id: int)
    requires WellFormed(t)
    ensures Delete(t, id).Err? <==> !HasId(t.rows, id)
    ensures Delete(t, id).Err? ==> Delete(t, id).error == UserNotFound
    ensures Delete(t, id).Ok? ==>
      var t' := Delete(t, id).value;
      t'.lastId == t.lastId && |t'.rows| == |t.rows| - 1 && !HasId(t'.rows, id) &&
      (forall k :: 0 <= k < |t.rows| && t.rows[k].id != id ==> t.rows[k] in t'.rows) &&
      (forall u :: u in t'.rows ==> u in t.rows)
  {
    if HasId(t.rows, id) {
      var k :| 0 <= k < |t.rows| && t.rows[k].id == id;
      CountUnique(t.rows, id, k);
    }
  }

  /** Deleting a row keeps the engine's guarantees on the rows that remain. */
  lemma DeleteKeepsWellFormed(t: Table, id: int)
    requires WellFormed(t) && Delete(t, id).Ok?
    ensures WellFormed(Delete(t, id).value)
  {
    DeleteKeepsOrder(t.rows, IdIs(id), t.lastId);
  }

  lemma {:induction false} DeleteKeepsOrder(s: seq<Row>, c: Condition, lastId: nat)
    requires WellFormed(Table(s, lastId))
    ensures WellFormed(Table(DeleteWhere(s, c), lastId))
  {
    if |s| > 0 {
      assert WellFormed(Table(s[1..], lastId));
      DeleteKeepsOrder(s[1..], c, lastId);
      var rest := DeleteWhere(s[1..], c);
      if !Matches(c, s[0]) {
        forall j | 0 <= j < |rest|
          ensures s[0].id < rest[j].id && s[0].email != rest[j].email
        {
          var i :| 0 <= i < |s[1..]| && s[1..][i] == rest[j];
          assert s[i + 1] == rest[j];
        }
        PrependKeepsWellFormed(s[0], rest, lastId);
      }
    }
  }

  /** A row below every id and every email of a well-formed table can go in front of it. */
  lemma PrependKeepsWellFormed(x: Row, rest: seq<Row>, lastId: nat)
    requires WellFormed(Table(rest, lastId)) && 0 < x.id <= lastId
    requires forall j :: 0 <= j < |rest| ==> x.id < rest[j].id && x.email != rest[j].email
    ensures WellFormed(Table([x] + rest, lastId))
  {
    var r := [x] + rest;
    assert forall j :: 0 < j < |r| ==> r[j] == rest[j - 1];
  }

  /** Ids ascend in rowid order, so an id names at most one row. */
  lemma {:induction false} CountUnique(rows: seq<Row>, id: int, k: nat)
    requires forall i, j :: 0 <= i < j < |rows| ==> rows[i].id < rows[j].id
    requires k < |rows| && rows[k].id == id
    ensures CountWhere(rows, IdIs(id)) == 1
  {
    if k == 0 {
      assert forall j :: 0 <= j < |rows[1..]| ==> rows[1..][j].id > id;
      assert CountWhere(rows[1..], IdIs(id)) == 0;
    } else {
      CountUnique(rows[1..], id, k - 1);
      assert rows[0].id < id;
    }
  }

  /** `getAllUsers`' query: every row, all columns, ordered by name. */
  function AllUsers(t: Table): (r: seq<Row>)
    ensures SortedByName(r) && multiset(r) == multiset(t.rows)
  {
    SortByName(t.rows)
  }
}
