/**
 * The module state of `server.js` and its exported operations. The globals `SQL` and `db`
 * and the one IndexedDB value under the key 'database' are the fields of `Backend`. The
 * changing account operations check the guard, apply their table change from `Accounts`,
 * then save the full export, as the source does step by step; the reading ones check the
 * guard and change nothing; setup and clear change the globals and the store directly.
 */
module Server {
  import opened Schema
  import opened Rows
  import opened Accounts

  /** How one IndexedDB request ends: its transaction commits, the database cannot be
      opened, or the transaction fails. Which of these happens is the browser's decision
      and is a parameter of every operation that touches the store. */
  datatype Io = Commits | OpenFails | TransactionFails

  /** A live engine instance: its serial number tells instances apart; its users table. */
  datatype Handle = Handle(serial: nat, table: Table)

  /** The store after `saveToIndexedDB(db.export())` of table `t`: written only on commit. */
  function AfterSave(io: Io, t: Table, before: Option<Snapshot>): Option<Snapshot> {
    if io.Commits? then Some(Export(t)) else before
  }

  /** What a changing operation returns once its save has run. A failed open is swallowed
      inside `saveToIndexedDB` (it returns false, which callers ignore); a failed transaction
      rejects the promise the caller awaits, so the operation throws although the table has
      already changed. */
  function AfterSaveReply<T>(io: Io, v: T): Result<T> {
    if io.TransactionFails? then Err(StoreWriteFailed) else Ok(v)
  }

  class Backend {
    /** `SQL`: whether the engine runtime has been loaded. */
    var runtimeLoaded: bool
    /** `db`: the live engine instance, if any. */
    var db: Option<Handle>
    /** The value IndexedDB holds under the key 'database' of the store 'sqliteDB'. */
    var stored: Option<Snapshot>
    /** How many engine instances have been constructed: the serial of the next one. */
    var created: nat
    /** How many engine instances were dropped without `close()`. */
    var leaked: nat

    ghost predicate Valid()
      reads this
    {
      db.Some? ==> runtimeLoaded && WellFormed(db.value.table) && db.value.serial < created
    }

    /** The store holds the export of the live table. */
    ghost predicate Persisted()
      reads this
    {
      db.Some? && stored == Some(Export(db.value.table))
    }

    /** The module as a page loads it: nothing loaded yet, while the browser store holds
        whatever an earlier session left there. */
    constructor (persisted: Option<Snapshot>)
      ensures Valid()
      ensures !runtimeLoaded && db.None? && stored == persisted && created == 0 && leaked == 0
    {
      runtimeLoaded := false;
      db := None;
      stored := persisted;
      created := 0;
      leaked := 0;
    }

    /** `isDatabaseInitialized`: both globals set. Since a handle only exists once the
        runtime is loaded, this is the same as a live handle. */
    function IsDatabaseInitialized(): (b: bool)
      reads this
      ensures Valid() ==> (b <==> db.Some?)
    {
      runtimeLoaded && db.Some?
    }

    /** `saveToIndexedDB(data)`: nothing is written for missing data or when the store cannot
        be opened (the result is then false); a failed transaction writes nothing and throws. */
    method SaveToStore(data: Option<Snapshot>, io: Io) returns (r: Result<bool>)
      modifies this`stored
      ensures data.None? ==> r == Ok(false) && stored == old(stored)
      ensures data.Some? && io.OpenFails? ==> r == Ok(false) && stored == old(stored)
      ensures data.Some? && io.TransactionFails? ==> r == Err(StoreWriteFailed) && stored == old(stored)
      ensures data.Some? && io.Commits? ==> r == Ok(true) && stored == data
    {
      if data.None? {
        return Ok(false);
      }
      match io
      case OpenFails =>
        r := Ok(false);
      case TransactionFails =>
        r := Err(StoreWriteFailed);
      case Commits =>
        stored := data;
        r := Ok(true);
    }

    /** `loadFromIndexedDB()`: the stored value, or null when there is none or the store cannot
        be opened; a failed transaction throws. It never writes. */
    method LoadFromStore(io: Io) returns (r: Result<Option<Snapshot>>)
      ensures io.Commits? ==> r == Ok(stored)
      ensures io.OpenFails? ==> r == Ok(None)
      ensures io.TransactionFails? ==> r == Err(StoreReadFailed)
    {
      match io
      case Commits => r := Ok(stored);
      case OpenFails => r := Ok(None);
      case TransactionFails => r := Err(StoreReadFailed);
    }

    /** `setupDatabase()`. `runtimeLoads` is whether loading the engine runtime succeeds;
        `load` and `save` are how the store read and the save of a fresh database end. */
    method SetupDatabase(runtimeLoads: bool, load: Io, save: Io) returns (r: Result<Handle>)
      requires Valid()
      modifies this
      ensures Valid()
      ensures !old(runtimeLoaded) && !runtimeLoads ==>
        r == Err(RuntimeUnavailable) && !runtimeLoaded && db == old(db) && stored == old(stored) &&
        created == old(created) && leaked == old(leaked)
      ensures old(runtimeLoaded) || runtimeLoads ==> runtimeLoaded
      ensures (old(runtimeLoaded) || runtimeLoads) && load.TransactionFails? ==>
        r == Err(StoreReadFailed) && db == old(db) && stored == old(stored) &&
        created == old(created) && leaked == old(leaked)
      // a stored snapshot is opened as a new instance, replacing a live one without closing it
      ensures (old(runtimeLoaded) || runtimeLoads) && load.Commits? && old(stored).Some? ==>
        stored == old(stored) && created == old(created) + 1 &&
        leaked == old(leaked) + (if old(db).Some? then 1 else 0) + (if Intact(old(stored).value) then 0 else 1) &&
        if Intact(old(stored).value)
        then db == Some(Handle(old(created), Restore(old(stored).value))) && r == Ok(db.value) && Persisted()
        else db.None? && r == Err(CorruptedDatabase)
      // no snapshot seen: a live handle is kept, otherwise a fresh database is built and saved
      ensures (old(runtimeLoaded) || runtimeLoads) && (load.OpenFails? || (load.Commits? && old(stored).None?)) ==>
        leaked == old(leaked) &&
        if old(db).Some?
        then db == old(db) && stored == old(stored) && created == old(created) && r == Ok(old(db).value)
        else db == Some(Handle(old(created), FreshTable())) && created == old(created) + 1 &&
             stored == AfterSave(save, FreshTable(), old(stored)) && r == AfterSaveReply(save, db.value)
    {
      if !runtimeLoaded {
        if !runtimeLoads {
          return Err(RuntimeUnavailable);
        }
        runtimeLoaded := true;
      }
      var saved := LoadFromStore(load);
      if saved.Err? {
        return Err(saved.error);
      }
      if saved.value.Some? {
        var s := saved.value.value;
        if db.Some? {
          leaked := leaked + 1;
        }
        created := created + 1;
        if !Intact(s) {
          // the probe fails: the instance just opened is dropped unclosed and `db` becomes null
          leaked := leaked + 1;
          db := None;
          return Err(CorruptedDatabase);
        }
        db := Some(Handle(created - 1, Restore(s)));
      }
      if db.None? {
        db := Some(Handle(created, FreshTable()));
        created := created + 1;
        var written := SaveToStore(Some(Export(FreshTable())), save);
        if written.Err? {
          return Err(written.error);
        }
      }
      r := Ok(db.value);
    }

    /** `clearDatabase()`: delete the stored value, then close and drop the live handle; the
        runtime stays loaded. Here `io` is how the delete request ends: a store that cannot be
        opened makes it return false with nothing changed, and a failed request throws with
        nothing changed. Success is reported when the request succeeds, before its transaction
        commits, and nothing listens to the transaction: `abortsAfterRequest` is a transaction
        that aborts after that point, which leaves the image stored although the handle is
        already dropped and true returned. */
    method ClearDatabase(io: Io, abortsAfterRequest: bool) returns (r: Result<bool>)
      requires Valid()
      modifies this
      ensures Valid()
      ensures runtimeLoaded == old(runtimeLoaded) && created == old(created) && leaked == old(leaked)
      ensures io.OpenFails? ==> r == Ok(false) && db == old(db) && stored == old(stored)
      ensures io.TransactionFails? ==> r == Err(StoreDeleteFailed) && db == old(db) && stored == old(stored)
      ensures io.Commits? ==> r == Ok(true) && db.None?
      ensures io.Commits? && !abortsAfterRequest ==> stored.None?
      ensures io.Commits? && abortsAfterRequest ==> stored == old(stored)
    {
      match io
      case OpenFails =>
        r := Ok(false);
      case TransactionFails =>
        r := Err(StoreDeleteFailed);
      case Commits =>
        db := None;
        r := Ok(true);
        if !abortsAfterRequest {
          stored := None;
        }
    }

    /** Replace the live table by `t` (the statement has run on the handle), then save its export. */
    method Commit(t: Table, io: Io) returns (r: Result<bool>)
      requires Valid() && db.Some? && WellFormed(t)
      modifies this
      ensures Valid()
      ensures runtimeLoaded == old(runtimeLoaded) && created == old(created) && leaked == old(leaked)
      ensures db == Some(old(db).value.(table := t))
      ensures stored == AfterSave(io, t, old(stored))
      ensures r == AfterSaveReply(io, io.Commits?)
      ensures io.Commits? ==> Persisted()
    {
      db := Some(db.value.(table := t));
      r := SaveToStore(Some(Export(t)), io);
    }

    /** `registerUser(name, email, password, phone)`. What it returns is read back with the
        phone in the fourth position, so the `role` field of the result holds the phone. */
    method RegisterUser(name: string, email: string, password: string, phone: Option<string>, io: Io)
      returns (r: Result<PublicUser>)
      requires Valid()
      modifies this
      ensures Valid()
      ensures runtimeLoaded == old(runtimeLoaded) && created == old(created) && leaked == old(leaked)
      ensures !old(IsDatabaseInitialized()) ==> r == Err(NotInitialized) && db == old(db) && stored == old(stored)
      ensures old(IsDatabaseInitialized()) && HasEmail(old(db).value.table.rows, email) ==>
        r == Err(EmailExists) && db == old(db) && stored == old(stored)
      ensures old(IsDatabaseInitialized()) && !HasEmail(old(db).value.table.rows, email) ==>
        var t := old(db).value.table;
        db == Some(old(db).value.(table := Register(t, name, email, password, phone).value)) &&
        db.value.table.rows == t.rows + [NewAccount(t, name, email, password, phone)] &&
        stored == AfterSave(io, db.value.table, old(stored)) &&
        r == AfterSaveReply(io, PublicUser(Integer(t.lastId + 1), Text(name), Text(email), TextOrNull(phone)))
      ensures r.Ok? && io.Commits? ==> Persisted()
    {
      if !IsDatabaseInitialized() {
        return Err(NotInitialized);
      }
      var t := db.value.table;
      RegisterSpec(t, name, email, password, phone);
      var change := Register(t, name, email, password, phone);
      if change.Err? {
        return Err(change.error);
      }
      RegisterKeepsWellFormed(t, name, email, password, phone);
      RegisterReturnsPhoneAsRole(t, name, email, password, phone);
      var saved := Commit(change.value, io);
      if saved.Err? {
        return Err(saved.error);
      }
      r := Ok(RegisteredUser(change.value, email).value);
    }

    /** `loginUser(email, password)`: reads only. */
    method LoginUser(email: string, password: string) returns (r: Result<PublicUser>)
      ensures !IsDatabaseInitialized() ==> r == Err(NotInitialized)
      ensures IsDatabaseInitialized() ==> r == Login(db.value.table, email, password)
    {
      if !IsDatabaseInitialized() {
        return Err(NotInitialized);
      }
      r := Login(db.value.table, email, password);
    }

    /** `generateResetToken(email)`, with the random token and the clock passed in. */
    method GenerateResetToken(email: string, token: string, now: int, io: Io) returns (r: Result<string>)
      requires Valid()
      modifies this
      ensures Valid()
      ensures runtimeLoaded == old(runtimeLoaded) && created == old(created) && leaked == old(leaked)
      ensures !old(IsDatabaseInitialized()) ==> r == Err(NotInitialized) && db == old(db) && stored == old(stored)
      ensures old(IsDatabaseInitialized()) && !HasEmail(old(db).value.table.rows, email) ==>
        r == Err(EmailNotFound) && db == old(db) && stored == old(stored)
      ensures old(IsDatabaseInitialized()) && HasEmail(old(db).value.table.rows, email) ==>
        db == Some(old(db).value.(table := IssueResetToken(old(db).value.table, email, token, now).value)) &&
        stored == AfterSave(io, db.value.table, old(stored)) &&
        r == AfterSaveReply(io, token)
      ensures r.Ok? && io.Commits? ==> Persisted()
    {
      if !IsDatabaseInitialized() {
        return Err(NotInitialized);
      }
      IssueResetTokenSpec(db.value.table, email, token, now);
      var change := IssueResetToken(db.value.table, email, token, now);
      if change.Err? {
        return Err(change.error);
      }
      var saved := Commit(change.value, io);
      if saved.Err? {
        return Err(saved.error);
      }
      r := Ok(token);
    }

    /** `resetPassword(token, newPassword)`, with the clock passed in. */
    method ResetPassword(token: string, newPassword: string, now: int, io: Io) returns (r: Result<bool>)
      requires Valid()
      modifies this
      ensures Valid()
      ensures runtimeLoaded == old(runtimeLoaded) && created == old(created) && leaked == old(leaked)
      ensures !old(IsDatabaseInitialized()) ==> r == Err(NotInitialized) && db == old(db) && stored == old(stored)
      ensures old(IsDatabaseInitialized()) && Redeem(old(db).value.table, token, newPassword, now).Err? ==>
        r == Err(InvalidOrExpiredToken) && db == old(db) && stored == old(stored)
      ensures old(IsDatabaseInitialized()) && Redeem(old(db).value.table, token, newPassword, now).Ok? ==>
        db == Some(old(db).value.(table := Redeem(old(db).value.table, token, newPassword, now).value)) &&
        stored == AfterSave(io, db.value.table, old(stored)) &&
        r == AfterSaveReply(io, true)
      ensures r.Ok? && io.Commits? ==> Persisted()
    {
      if !IsDatabaseInitialized() {
        return Err(NotInitialized);
      }
      RedeemSpec(db.value.table, token, newPassword, now);
      var change := Redeem(db.value.table, token, newPassword, now);
      if change.Err? {
        return Err(change.error);
      }
      var saved := Commit(change.value, io);
      if saved.Err? {
        return Err(saved.error);
      }
      r := Ok(true);
    }

    /** `addUser(name, email, role)`. Its insert names no password, which the schema declares
        NOT NULL, so the engine refuses every insert it tries: the call always throws, and
        the save that follows the insert in the source is never reached. */
    method AddUser(name: string, email: string, role: string) returns (r: Result<bool>)
      ensures !IsDatabaseInitialized() ==> r == Err(NotInitialized)
      ensures IsDatabaseInitialized() ==>
        r == Err(if HasEmail(db.value.table.rows, email) then EmailExists else NotNullFailed)
    {
      if !IsDatabaseInitialized() {
        return Err(NotInitialized);
      }
      var change := Accounts.AddUser(db.value.table, name, email, role);
      r := Err(change.error);
    }

    /** `getAllUsers()`: every row with all its columns (the password included), ordered by
        name; reads only. */
    method GetAllUsers() returns (r: Result<seq<Row>>)
      ensures !IsDatabaseInitialized() ==> r == Err(NotInitialized)
      ensures IsDatabaseInitialized() ==>
        r.Ok? && SortedByName(r.value) && multiset(r.value) == multiset(db.value.table.rows)
    {
      if !IsDatabaseInitialized() {
        return Err(NotInitialized);
      }
      r := Ok(AllUsers(db.value.table));
    }

    /** `deleteUser(id)`. */
    method DeleteUser(id: int, io: Io) returns (r: Result<bool>)
      requires Valid()
      modifies this
      ensures Valid()
      ensures runtimeLoaded == old(runtimeLoaded) && created == old(created) && leaked == old(leaked)
      ensures !old(IsDatabaseInitialized()) ==> r == Err(NotInitialized) && db == old(db) && stored == old(stored)
      ensures old(IsDatabaseInitialized()) && !HasId(old(db).value.table.rows, id) ==>
        r == Err(UserNotFound) && db == old(db) && stored == old(stored)
      ensures old(IsDatabaseInitialized()) && HasId(old(db).value.table.rows, id) ==>
        db == Some(old(db).value.(table := Delete(old(db).value.table, id).value)) &&
        |db.value.table.rows| == |old(db).value.table.rows| - 1 && !HasId(db.value.table.rows, id) &&
        stored == AfterSave(io, db.value.table, old(stored)) &&
        r == AfterSaveReply(io, true)
      ensures r.Ok? && io.Commits? ==> Persisted()
    {
      if !IsDatabaseInitialized() {
        return Err(NotInitialized);
      }
      DeleteSpec(db.value.table, id);
      var change := Delete(db.value.table, id);
      if change.Err? {
        return Err(change.error);
      }
      DeleteKeepsWellFormed(db.value.table, id);
      var saved := Commit(change.value, io);
      if saved.Err? {
        return Err(saved.error);
      }
      r := Ok(true);
    }

    /** `exportDatabase()`: the image of the live table, which reopens to that same table;
        reads only. */
    method ExportDatabase() returns (r: Result<Snapshot>)
      ensures !IsDatabaseInitialized() ==> r == Err(NotInitialized)
      ensures IsDatabaseInitialized() ==> r.Ok? && r.value.Image? && Restore(r.value) == db.value.table
      ensures Valid() && IsDatabaseInitialized() ==> Intact(r.value)
    {
      if !IsDatabaseInitialized() {
        return Err(NotInitialized);
      }
      r := Ok(Export(db.value.table));
    }
  }
}
