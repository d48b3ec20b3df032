/**
 * The `users` table of the in-memory SQL engine, as the schema of `server.js` declares it,
 * the seed row a fresh database receives, and the engine's exported image of a table.
 */
module Schema {

  datatype Option<T> = None | Some(value: T)

  /** One row of `users`. The nullable TEXT and DATETIME columns are options;
      `reset_token_expires` is a point in time in milliseconds. */
  datatype Row = Row(
    id: int,
    name: string,
    email: string,
    password: string,
    phone: Option<string>,
    role: string,
    resetToken: Option<string>,
    resetExpires: Option<int>)

  /** The table: its rows in rowid order, and the AUTOINCREMENT counter
      (the largest id ever handed out, kept by the engine in `sqlite_sequence`). */
  datatype Table = Table(rows: seq<Row>, lastId: nat)

  /** What the engine guarantees of every table it holds: ids are positive, never above
      the AUTOINCREMENT counter and ascending in rowid order (so distinct), and the
      UNIQUE constraint on `email` holds. */
  predicate WellFormed(t: Table) {
    (forall k :: 0 <= k < |t.rows| ==> 0 < t.rows[k].id <= t.lastId) &&
    (forall i, j :: 0 <= i < j < |t.rows| ==> t.rows[i].id < t.rows[j].id) &&
    (forall i, j :: 0 <= i < j < |t.rows| ==> t.rows[i].email != t.rows[j].email)
  }

  const AdminName := "Admin User"
  const AdminEmail := "admin@beautylounge.com"
  const AdminPassword := "admin123"
  const AdminRole := "admin"
  /** The role `registerUser` writes for every new account. */
  const UserRole := "user"

  /** A new database after the schema script: an empty `users` table into which the
      guarded seed insert has put the one administrative account. */
  function FreshTable(): (t: Table)
    ensures WellFormed(t)
    ensures |t.rows| == 1 && t.lastId == 1
    ensures t.rows[0].name == AdminName && t.rows[0].email == AdminEmail
    ensures t.rows[0].password == AdminPassword && t.rows[0].role == AdminRole
    ensures t.rows[0].phone.None? && t.rows[0].resetToken.None? && t.rows[0].resetExpires.None?
  {
    Table([Row(1, AdminName, AdminEmail, AdminPassword, None, AdminRole, None, None)], 1)
  }

  /** The byte image `db.export()` produces and `new SQL.Database(bytes)` reads back,
      abstracted to the table it encodes; `Unreadable` stands for any stored bytes the
      engine cannot open as a database. */
  datatype Snapshot = Image(table: Table) | Unreadable

  /** The integrity probe (`SELECT 1` on the reopened database) succeeds exactly on images
      of well-formed tables. */
  predicate Intact(s: Snapshot) {
    s.Image? && WellFormed(s.table)
  }

  /** The engine's export of a table. */
  function Export(t: Table): (s: Snapshot)
    ensures s.Image? && Restore(s) == t
    ensures Intact(s) <==> WellFormed(t)
  {
    Image(t)
  }

  /** Reopening an image: the table it encodes. */
  function Restore(s: Snapshot): Table
    requires s.Image?
  {
    s.table
  }
}
