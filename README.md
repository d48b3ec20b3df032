# Beauty lounge account store, modelled in Dafny

`server.js` is the browser-side data layer of a beauty salon site. It keeps an in-memory
SQL database (SQL.js) holding one `users` table. After every change it saves the database's
exported image to IndexedDB, under the key `database` of the object store `sqliteDB`. On the
exported functions built on that, the pages register and log in users, issue and redeem
password-reset tokens, list, add and delete users, export the database and clear it.

This project models that layer:

- `schema.dfy` (`Schema`): a users row and the table, with the AUTOINCREMENT counter. It also
  gives the guarantees the engine keeps on a table (`WellFormed`: ids positive, ascending,
  at most the counter; emails unique), the seed row of a new database, and the exported image
  with its integrity probe (`Export`, `Restore`, `Intact`).
- `rows.dfy` (`Rows`): what the statements do to a sequence of rows:
  - the first row a query yields;
  - `COUNT(*) ... WHERE`;
  - `UPDATE ... WHERE`;
  - `DELETE ... WHERE`;
  - `ORDER BY name` under the engine's binary collation.
- `accounts.dfy` (`Accounts`): each account operation's pre-check and statement as a change of
  the table, plus `formatUserData`. Lemmas state what each operation promises.
- `server.dfy` (`Server`): the module state as the class `Backend`. Its fields are:
  - the engine runtime flag (`SQL`);
  - the live handle (`db`);
  - the stored snapshot;
  - counters of the engine instances opened and dropped unclosed.

  Every exported operation except `formatUserData` (the pure function
  `Accounts.FormatUserData`) is a method whose contract gives the whole new state.
  - `registerUser`, `generateResetToken`, `resetPassword` and `deleteUser` check the guard,
    apply the table change, then save the export.
  - `addUser` checks the guard and always fails before its save.
  - `loginUser`, `getAllUsers` and `exportDatabase` check the guard and change nothing.
  - `setupDatabase` and `clearDatabase` check no guard; they set the globals and the store.
- `scenarios.dfy` (`Scenarios`): page sessions across reloads. Each reload is a new `Backend`
  over what the store kept.

How each IndexedDB request ends is a parameter `Io`:

- `Commits`: the request goes through.
- `OpenFails`: opening the store fails. This is caught: save returns false, load returns
  null, clear returns false.
- `TransactionFails`: for a save or a load, the transaction fails. It rejects a promise that
  the helpers return from inside their `try` without awaiting it, so their `catch` never sees
  it, and the calling operation throws. For `clearDatabase`, it is the delete request that
  fails, and that throws.

`clearDatabase` reports success as soon as its delete request succeeds, and nothing listens
to the transaction after that. Its extra parameter `abortsAfterRequest` is a transaction that
aborts after that point. The call still returns true with the handle dropped, but the image
stays stored and the next `setupDatabase` reopens it.

The random reset token and the clock are parameters as well.

The code is reproduced as written where it is surprising:

- `registerUser` reads the new row back as `(id, name, email, phone, role)` and hands it to
  `formatUserData`, so the `role` of the object it returns holds the phone.
- `addUser` inserts no password into a NOT NULL column, so it never succeeds.
- `setupDatabase` with a stored image opens a new engine instance even while one is live, and
  the old one is never closed (`Backend.leaked`).
- `getAllUsers` is `SELECT *`, so the rows it returns carry the password. The intent that user
  data handed out never carries the password does not hold for it.

## Model

| member | source | states |
|---|---|---|
| Schema.FreshTable | server.js:148-168 | a new database holds exactly one row: Admin User, admin@beautylounge.com, admin123, role admin, id 1, no phone or token; the table is well formed |
| Schema.Export | server.js:125-129 | the exported image reopens to the same table, and passes the integrity probe exactly when the table is well formed |
| Rows.IndexOfFirst | server.js:221-222 | the row a query yields is the first row satisfying its WHERE clause; there is none exactly when no row satisfies it |
| Rows.FirstAt | server.js:284 | a search whose condition first holds at row k yields row k |
| Rows.CountWhere | server.js:187-191 | `COUNT(*)` is zero exactly when no row matches, and at most the number of rows |
| Rows.UpdateWhere | server.js:292-298 | `UPDATE ... WHERE` rewrites every matching row by its SET clause and keeps every other row in place |
| Rows.DeleteWhere | server.js:371-374 | `DELETE ... WHERE` drops exactly the matching rows and keeps every other row; the rows left are a sub-multiset of the rows before |
| Rows.NameLeTotal | server.js:348 | the collation compares any two names |
| Rows.InsertByName | server.js:348 | inserting into a name-ordered sequence keeps it ordered and adds exactly that row |
| Rows.SortByName | server.js:348 | `ORDER BY name` returns the same rows, as a multiset, ordered by name |
| Accounts.FormatUserData | server.js:390-399 | null exactly for a missing row; otherwise positions 0 to 3 as id, name, email, role |
| Accounts.Insert | server.js:150-153 | an insert without password fails NOT NULL; one with a taken email fails UNIQUE; otherwise it appends one row with the next id |
| Accounts.Register | server.js:186-201 | the pre-check and insert of `registerUser`: an error only for a taken email, and then 'Email already exists'; a success adds one row and advances the counter (full contract in `Accounts.RegisterSpec`) |
| Accounts.RegisterSpec | server.js:186-201 | registration fails with 'Email already exists' exactly when the email is taken; otherwise it appends exactly one row with the next id and role 'user', the only row with that email |
| Accounts.AppendKeepsWellFormed | server.js:150-152 | appending a row with the next id and a new email keeps the table well formed |
| Accounts.RegisterKeepsWellFormed | server.js:196-201 | a successful registration keeps the table well formed |
| Accounts.CountAppend | server.js:187 | a count over two row sequences is the sum of the counts |
| Accounts.DuplicateRegistrationRejected | server.js:186-193 | registering the same email again is refused, and the email stays on one row |
| Accounts.RegisteredUser | server.js:207-208 | the row read back by email is missing exactly when no row has the email (the phone-as-role result is in `Accounts.RegisterReturnsPhoneAsRole`) |
| Accounts.RegisterReturnsPhoneAsRole | server.js:207-208 | what registration returns is the new id, name and email, with the phone (or null) in the role field |
| Accounts.Login | server.js:221-229 | login succeeds exactly when some row matches email and password exactly, returning that row's id, name, email and role; otherwise 'Invalid email or password' |
| Accounts.RegisterThenLogin | server.js:196-229 | a newly registered account logs in with its password and is reported with its new id and role 'user' |
| Accounts.LoginOnlyRow | server.js:221-227 | when one row alone has the email, login succeeds exactly with that row's password |
| Accounts.AddUser | server.js:316-328 | adding a user always fails: 'Email already exists' for a taken email, the NOT NULL constraint otherwise |
| Accounts.IssueResetToken | server.js:242-260 | the pre-check and update of `generateResetToken`: 'Email not found' exactly for an unknown email, otherwise the same number of rows and the same counter (full contract in `Accounts.IssueResetTokenSpec`) |
| Accounts.IssueResetTokenSpec | server.js:242-260 | issuing fails with 'Email not found' exactly for an unknown email; otherwise only that email's row gets the token and the expiry now + 3600000, and the table stays well formed |
| Accounts.IssuedAt | server.js:254-260 | issuing for the email of row k stamps row k alone |
| Accounts.Redeem | server.js:278-298 | the search and update of `resetPassword`: fails only with 'Invalid or expired reset token'; succeeds only when some row holds the token unexpired, keeping the row count and counter (full contract in `Accounts.RedeemSpec`) |
| Accounts.RedeemSpec | server.js:278-298 | redemption fails with 'Invalid or expired reset token' exactly when no row holds the token unexpired; otherwise exactly one such row gets the new password with token and expiry cleared, and no other row changes |
| Accounts.RedeemAt | server.js:292-298 | when the token search stops at row k, that row alone is reset |
| Accounts.RedeemFinds | server.js:284-289 | redemption succeeds exactly when the token search finds a row |
| Accounts.StampedRow | server.js:256-281 | a stamped row holds the token unexpired exactly when it has the email and now is before the expiry |
| Accounts.StampedSearch | server.js:256-281 | after stamping, the token search finds a row exactly when the email is known and now is before the expiry |
| Accounts.IssuedRows | server.js:242-260 | issuing for a known email succeeds and stamps the rows with that email |
| Accounts.TokenExpiry | server.js:250-289 | a new token for a known email is accepted exactly before the issue time plus one hour |
| Accounts.TokenSingleUse | server.js:292-296 | a redeemed token is cleared, so a second redemption fails |
| Accounts.ResetThenLogin | server.js:273-303 | after issuing and redeeming a token, the new password logs in and the old one is refused |
| Accounts.KeptRowsKeepEmails | server.js:152 | when only row k changes, no other row carries row k's email |
| Accounts.KeysKeepWellFormed | server.js:292-298 | rewriting rows without touching ids or emails keeps the table well formed |
| Accounts.EmailsDistinct | server.js:152 | two rows of a well-formed table have different emails |
| Accounts.Delete | server.js:361-374 | the pre-check and delete of `deleteUser`: 'User not found' exactly for an unknown id, otherwise fewer rows and the same counter (full contract in `Accounts.DeleteSpec`) |
| Accounts.DeleteSpec | server.js:361-374 | deletion fails with 'User not found' exactly for an unknown id; otherwise exactly one row goes, the id is gone, every other row is kept and the counter is unchanged |
| Accounts.DeleteKeepsWellFormed | server.js:371-374 | deleting a row keeps the table well formed |
| Accounts.DeleteKeepsOrder | server.js:371 | a `DELETE` keeps ids ascending and emails unique on the rows left |
| Accounts.PrependKeepsWellFormed | server.js:150-152 | a row below every id and email of a well-formed table can precede it |
| Accounts.CountUnique | server.js:362-366 | an id names at most one row, so its count is one when present |
| Accounts.AllUsers | server.js:348-349 | listing returns every row, as a multiset, ordered by name |
| Server.Backend.constructor | server.js:2-3 | a page starts with no runtime and no handle, over what the store kept |
| Server.Backend.IsDatabaseInitialized | server.js:103-105 | the guard holds exactly when a handle is live |
| Server.Backend.SaveToStore | server.js:31-64 | missing data and a failed open write nothing and return false; a failed transaction writes nothing and throws; a commit stores the data and returns true |
| Server.Backend.LoadFromStore | server.js:67-100 | reading returns the stored value, null on a failed open, throws on a failed transaction, and never writes |
| Server.Backend.SetupDatabase | server.js:108-179 | it loads the runtime once or throws. With a stored image, it opens a new instance from it, leaking a live one, and writes nothing; a corrupt image leaves no handle and throws. Without one it keeps a live handle or builds, seeds and saves a fresh table |
| Server.Backend.ClearDatabase | server.js:408-435 | a failed open returns false and a failed delete request throws, both changing nothing. A successful request returns true and closes and drops the handle while the runtime stays. The stored value is deleted unless the transaction aborts after the request, in which case it stays |
| Server.Backend.Commit | server.js:204 | the live table becomes the changed table and its export is stored on commit |
| Server.Backend.RegisterUser | server.js:182-213 | uninitialised or taken email: the error, nothing changed; otherwise the new row is appended and saved, the result carries the phone as role, and a committed save leaves the store holding the live table |
| Server.Backend.LoginUser | server.js:216-234 | the login result on the live table, or 'Database not initialized'; changes nothing |
| Server.Backend.GenerateResetToken | server.js:237-270 | uninitialised or unknown email: the error, nothing changed; otherwise the stamped table is live and saved and the token returned |
| Server.Backend.ResetPassword | server.js:273-308 | uninitialised or no live token: the error, nothing changed; otherwise the reset table is live and saved and true returned |
| Server.Backend.AddUser | server.js:311-341 | always throws: 'Database not initialized', 'Email already exists' or the NOT NULL failure; changes nothing |
| Server.Backend.GetAllUsers | server.js:344-354 | every row of the live table ordered by name ([] for an empty table), or 'Database not initialized'; changes nothing |
| Server.Backend.DeleteUser | server.js:357-387 | uninitialised or unknown id: the error, nothing changed; otherwise one row fewer, the id gone, saved |
| Server.Backend.ExportDatabase | server.js:402-405 | the image of the live table, which reopens to it and passes the integrity probe, or 'Database not initialized' |
| Scenarios.FirstVisitThenReload | server.js:120-171 | the first visit builds and saves the seeded table; the next visit opens that same table |
| Scenarios.SetupTwice | server.js:122-125 | a second setup opens a new instance of the same table and leaves the first one unclosed |
| Scenarios.RegistrationSurvivesReload | server.js:204 | an account registered on one visit logs in on the next with id 2 and role 'user' |
| Scenarios.ClearThenSetup | server.js:414-423 | after clearing, operations report an uninitialised database, and setup starts over from the seed |
| Scenarios.AbortedClearThenSetup | server.js:410-423 | a clear whose transaction aborts after its request still returns true and leaves the page uninitialised, yet the next setup reopens the old table with the registered account |

## Left out

- IndexedDB plumbing is not modelled: opening, `onupgradeneeded`, request callbacks and
  promises. The store is one optional value, and how each request ends is the `Io` parameter.
- Loading the engine runtime from its CDN is a boolean parameter of `SetupDatabase`.
- The SQL text, the engine's byte image and `Uint8Array` are abstracted. An image is the table
  it encodes; `Unreadable` stands for bytes the engine cannot open. The `SELECT 1` probe is
  the predicate `Intact`.
- Accounts.AllUsers, Server.Backend.GetAllUsers: the `created_at` column is left out of the
  rows. `getAllUsers` runs `SELECT *`, so each row it returns also carries `created_at`, the
  `CURRENT_TIMESTAMP` default the row got when inserted. The model's rows drop that value.
- `Math.random` token generation and the clock are parameters (`token`, `now`).
- Accounts.IssueResetToken: expiries are numbers of milliseconds. The code stores an ISO-8601
  string and compares it, as text, with the engine's `CURRENT_TIMESTAMP`, which has a
  different format. That text comparison is not emulated.
- Accounts.TokenExpiry, Accounts.ResetThenLogin: the one-hour window holds in the model only.
  The code stores `toISOString()` text (`YYYY-MM-DDTHH:MM:SS.sssZ`) in the DATETIME column.
  That column has NUMERIC affinity, so the text stays TEXT, and the code compares it as text
  with `CURRENT_TIMESTAMP` (`YYYY-MM-DD HH:MM:SS`). At position 10, 'T' sorts after ' ', so the
  program accepts a token on every day up to and including the UTC date of its expiry. A
  token issued at 10:00 UTC is still redeemed at 23:59 UTC that day, and one issued after
  23:00 UTC is accepted until the end of the next UTC day.
- Async interleaving of overlapping calls is not modelled; each operation is atomic.
- Console logging is not modelled.
- Server.Backend.RegisterUser, Server.Backend.AddUser: only `phone` may be null; names, emails
  and passwords are strings. What the code does with a null (or `undefined`) one is not
  modelled. A null password or name passes the email pre-check and then fails the NOT NULL
  constraint at the insert. A null email passes the pre-check, because `email = NULL` matches
  no row. The insert then adds a row with a NULL email and saves it, and the read-back by email
  finds no row, so `registerUser` throws after a change that has already been saved.
  Non-string arguments bound to the statements are not modelled either.
- Server.Backend.GetAllUsers: states the name order and the same rows, not the order the engine
  gives to rows with equal names.
- Server.Backend.SetupDatabase: one engine instance that the engine itself fails to construct is
  counted as opened and leaked. The model does not tell it apart from one that opens and then
  fails the probe.
