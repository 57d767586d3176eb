/**
  The credential store behind the service's three collaborator interfaces
  (UserSaver, UserProvider, AppProvider), as an in-memory table of users and a
  read-only table of apps, with the SQLite adapter's error translation.
*/
module Storage {
  import opened Wrappers
  import Bcrypt

  /**
    What a store operation can fail with: the storage layer's three error kinds,
    or any other database failure, passed on as it is.
  */
  datatype StoreError =
    | UserExists
    | UserNotFound
    | AppNotFound
    | DatabaseFault(cause: string)

  /** A user as the store hands it to the service. */
  datatype User = User(id: int, username: string, passwordHash: Bcrypt.PasswordHash)

  /** A client application and the secret its tokens are signed with. */
  datatype App = App(id: int, name: string, secret: string)

  /** One row of the users table. */
  datatype UserRow = UserRow(id: int, username: string, passHash: Bcrypt.PasswordHash, isAdmin: bool)
  {
    /** The columns a user lookup selects: id, username and password hash. */
    function AsUser(): User
    {
      User(id, username, passHash)
    }
  }

  /** The first row with this username, as `SELECT ... WHERE username = ?` returns it. */
  function FindByUsername(rows: seq<UserRow>, username: string): (r: Option<UserRow>)
    ensures r.Some? ==> r.value in rows && r.value.username == username
    ensures r.None? <==> forall i :: 0 <= i < |rows| ==> rows[i].username != username
  {
    if |rows| == 0 then None
    else if rows[0].username == username then Some(rows[0])
    else FindByUsername(rows[1..], username)
  }

  /** The first row with this id, as `SELECT ... WHERE id = ?` returns it. */
  function FindById(rows: seq<UserRow>, id: int): (r: Option<UserRow>)
    ensures r.Some? ==> r.value in rows && r.value.id == id
    ensures r.None? <==> forall i :: 0 <= i < |rows| ==> rows[i].id != id
  {
    if |rows| == 0 then None
    else if rows[0].id == id then Some(rows[0])
    else FindById(rows[1..], id)
  }

  /** Appending a row changes a username lookup only when the name was absent before. */
  lemma {:induction false} FindByUsernameAppend(rows: seq<UserRow>, row: UserRow, username: string)
    ensures FindByUsername(rows + [row], username) ==
      if FindByUsername(rows, username).Some? then FindByUsername(rows, username)
      else if row.username == username then Some(row)
      else None
  {
    if |rows| > 0 {
      assert (rows + [row])[1..] == rows[1..] + [row];
      FindByUsernameAppend(rows[1..], row, username);
    }
  }

  /** Appending a row changes an id lookup only when the id was absent before. */
  lemma {:induction false} FindByIdAppend(rows: seq<UserRow>, row: UserRow, id: int)
    ensures FindById(rows + [row], id) ==
      if FindById(rows, id).Some? then FindById(rows, id)
      else if row.id == id then Some(row)
      else None
  {
    if |rows| > 0 {
      assert (rows + [row])[1..] == rows[1..] + [row];
      FindByIdAppend(rows[1..], row, id);
    }
  }

  /**
    The database. `rows` is the users table in insertion order, `nextId` the id the
    next insert is given, `apps` the apps table (provisioned beforehand, never written)
    and `fault` the failure every statement meets when the database is not usable.
  */
  class Store {
    var rows: seq<UserRow>
    var nextId: int
    const apps: map<int, App>
    const fault: Option<string>

    /** Ids are positive, increase with insertion order and stay below nextId; usernames are unique. */
    ghost predicate Valid()
      reads this
    {
      && 1 <= nextId
      && (forall i :: 0 <= i < |rows| ==> 1 <= rows[i].id < nextId)
      && (forall i, j :: 0 <= i < j < |rows| ==> rows[i].id < rows[j].id)
      && (forall i, j :: 0 <= i < j < |rows| ==> rows[i].username != rows[j].username)
      && (forall id :: id in apps ==> apps[id].id == id)
    }

    /** An empty users table over the given apps. */
    constructor (apps: map<int, App>, fault: Option<string>)
      requires forall id :: id in apps ==> apps[id].id == id
      ensures Valid()
      ensures rows == [] && nextId == 1 && this.apps == apps && this.fault == fault
    {
      rows := [];
      nextId := 1;
      this.apps := apps;
      this.fault := fault;
    }

    /**
      `INSERT INTO users(username, pass_hash)`: a uniqueness conflict on the username
      becomes UserExists, any other failure is passed on, and a new row gets a fresh
      id with the admin flag clear.
    */
    method SaveUser(username: string, passHash: Bcrypt.PasswordHash) returns (r: Result<int, StoreError>)
      requires Valid()
      modifies this
      ensures Valid()
      ensures fault.Some? ==>
        r == Err(DatabaseFault(fault.value)) && rows == old(rows) && nextId == old(nextId)
      ensures fault.None? && FindByUsername(old(rows), username).Some? ==>
        r == Err(UserExists) && rows == old(rows) && nextId == old(nextId)
      ensures fault.None? && FindByUsername(old(rows), username).None? ==>
        && r == Ok(old(nextId))
        && rows == old(rows) + [UserRow(old(nextId), username, passHash, false)]
        && nextId == old(nextId) + 1
    {
      if fault.Some? {
        return Err(DatabaseFault(fault.value));
      }
      if FindByUsername(rows, username).Some? {
        return Err(UserExists);
      }
      r := Ok(nextId);
      rows := rows + [UserRow(nextId, username, passHash, false)];
      nextId := nextId + 1;
    }

    /** `SELECT id, username, pass_hash FROM users WHERE username = ?`; no row is UserNotFound. */
    function GetUser(username: string): (r: Result<User, StoreError>)
      reads this
      ensures fault.Some? ==> r == Err(DatabaseFault(fault.value))
      ensures fault.None? ==>
        (r == Err(UserNotFound) <==> forall i :: 0 <= i < |rows| ==> rows[i].username != username)
      ensures fault.None? ==> r.Ok? || r == Err(UserNotFound)
      ensures r.Ok? ==> exists row :: row in rows && row.username == username && r.value == row.AsUser()
    {
      if fault.Some? then Err(DatabaseFault(fault.value))
      else
        match FindByUsername(rows, username)
        case None => Err(UserNotFound)
        case Some(row) => Ok(row.AsUser())
    }

    /** `SELECT is_admin FROM users WHERE id = ?`; no row is UserNotFound. */
    function IsAdmin(userId: int): (r: Result<bool, StoreError>)
      reads this
      ensures fault.Some? ==> r == Err(DatabaseFault(fault.value))
      ensures fault.None? ==> (r == Err(UserNotFound) <==> forall i :: 0 <= i < |rows| ==> rows[i].id != userId)
      ensures fault.None? ==> r.Ok? || r == Err(UserNotFound)
      ensures r.Ok? ==> exists row :: row in rows && row.id == userId && r.value == row.isAdmin
    {
      if fault.Some? then Err(DatabaseFault(fault.value))
      else
        match FindById(rows, userId)
        case None => Err(UserNotFound)
        case Some(row) => Ok(row.isAdmin)
    }

    /** `SELECT id, name, secret FROM apps WHERE id = ?`; no row is AppNotFound. */
    function GetApp(appId: int): (r: Result<App, StoreError>)
      reads this
      ensures fault.Some? ==> r == Err(DatabaseFault(fault.value))
      ensures fault.None? ==> (r.Ok? <==> appId in apps)
      ensures fault.None? && appId !in apps ==> r == Err(AppNotFound)
      ensures r.Ok? ==> r.value == apps[appId]
    {
      if fault.Some? then Err(DatabaseFault(fault.value))
      else if appId in apps then Ok(apps[appId])
      else Err(AppNotFound)
    }
  }
}
