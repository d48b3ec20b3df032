/**
 * Page sessions driving `Backend` the way the application's pages do, across reloads of
 * the page: each reload is a new `Backend` over what the browser store kept.
 */
module Scenarios {
  import opened Schema
  import opened Accounts
  import opened Server

  /** The first visit finds an empty store, builds the seeded database and saves it; the next
      visit opens that same table from the store rather than building another. */
  method FirstVisitThenReload() returns (first: Result<Handle>, second: Result<Handle>)
    ensures first.Ok? && first.value.table == FreshTable()
    ensures second.Ok? && second.value.table == FreshTable()
  {
    var page := new Backend(None);
    first := page.SetupDatabase(true, Commits, Commits);
    var reloaded := new Backend(page.stored);
    second := reloaded.SetupDatabase(true, Commits, Commits);
  }

  /** Calling `setupDatabase` again while a handle is live reopens the stored image as a new
      instance: the same table, a different instance, and the old one never closed. */
  method SetupTwice() returns (first: Result<Handle>, second: Result<Handle>, unclosed: nat)
    ensures first.Ok? && second.Ok? && first.value.table == second.value.table
    ensures first.value.serial != second.value.serial
    ensures unclosed == 1
  {
    var page := new Backend(None);
    first := page.SetupDatabase(true, Commits, Commits);
    second := page.SetupDatabase(true, Commits, Commits);
    unclosed := page.leaked;
  }

  /** An account registered on one visit can log in on the next, since every successful
      change is saved before the operation returns. */
  method RegistrationSurvivesReload(name: string, email: string, password: string, phone: Option<string>)
    returns (registered: Result<PublicUser>, login: Result<PublicUser>)
    ensures email == AdminEmail ==> registered == Err(EmailExists)
    ensures email != AdminEmail ==>
      registered == Ok(PublicUser(Integer(2), Text(name), Text(email), TextOrNull(phone))) &&
      login == Ok(PublicUser(Integer(2), Text(name), Text(email), Text(UserRole)))
  {
    var page := new Backend(None);
    var setup := page.SetupDatabase(true, Commits, Commits);
    registered := page.RegisterUser(name, email, password, phone, Commits);
    var reloaded := new Backend(page.stored);
    var reopened := reloaded.SetupDatabase(true, Commits, Commits);
    login := reloaded.LoginUser(email, password);
    if email != AdminEmail {
      RegisterThenLogin(FreshTable(), name, email, password, phone);
    }
  }

  /** After `clearDatabase` every operation reports an uninitialised database until
      `setupDatabase` runs again, which then starts over from the seeded table. */
  method ClearThenSetup(name: string, email: string, password: string)
    returns (cleared: Result<bool>, login: Result<PublicUser>, reopened: Result<Handle>)
    ensures cleared == Ok(true)
    ensures login == Err(NotInitialized)
    ensures reopened.Ok? && reopened.value.table == FreshTable()
  {
    var page := new Backend(None);
    var setup := page.SetupDatabase(true, Commits, Commits);
    var registered := page.RegisterUser(name, email, password, None, Commits);
    cleared := page.ClearDatabase(Commits, false);
    login := page.LoginUser(email, password);
    reopened := page.SetupDatabase(false, Commits, Commits);
  }

  /** A clear whose transaction aborts after the delete request succeeded still reports
      success and drops the handle, but the next `setupDatabase` reopens the image that was
      never deleted, with the account registered before the clear. */
  method AbortedClearThenSetup(name: string, email: string, password: string)
    returns (cleared: Result<bool>, login: Result<PublicUser>, reopened: Result<Handle>)
    ensures cleared == Ok(true)
    ensures login == Err(NotInitialized)
    ensures reopened.Ok?
    ensures email != AdminEmail ==> |reopened.value.table.rows| == 2
  {
    var page := new Backend(None);
    var setup := page.SetupDatabase(true, Commits, Commits);
    var registered := page.RegisterUser(name, email, password, None, Commits);
    cleared := page.ClearDatabase(Commits, true);
    login := page.LoginUser(email, password);
    reopened := page.SetupDatabase(false, Commits, Commits);
  }
}
