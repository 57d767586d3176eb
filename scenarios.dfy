/**
  The end-to-end behaviour the repository's integration tests exercise, proved
  for every server whose store is consistent, working and holds the test app,
  whatever users it already has, and for all usernames, passwords, salts and instants.
*/
module Scenarios {
  import opened Wrappers
  import Storage
  import Bcrypt
  import Hs256
  import Jwt
  import AuthService
  import Transport

  const TestAppId := 1
  const TestAppSecret := "4urka"

  /** The store behind `server` is consistent, has no database failure and holds the test app. */
  ghost predicate TestServer(server: Transport.ServerAPI)
    reads server.auth.store
  {
    && server.auth.store.Valid()
    && server.auth.store.fault.None?
    && TestAppId in server.auth.store.apps
    && server.auth.store.apps[TestAppId].secret == TestAppSecret
  }

  /**
    Register a username nobody has, then log in: the token decodes under the app's
    secret to the registered id, the username, the app id and the expiry now + ttl.
  */
  method RegisterLoginHappyPath(server: Transport.ServerAPI, username: string, password: string,
                                salt: Bcrypt.Salt, now: int)
    returns (userId: int, token: Hs256.Token)
    requires TestServer(server)
    requires username != "" && password != ""
    requires Storage.FindByUsername(server.auth.store.rows, username).None?
    modifies server.auth.store
    ensures TestServer(server)
    ensures userId >= 1
    ensures var c := Hs256.Parse(token, TestAppSecret);
      && c.Some?
      && c.value.Keys == {Jwt.UserIdClaim, Jwt.UsernameClaim, Jwt.ExpClaim, Jwt.AppIdClaim}
      && c.value[Jwt.UserIdClaim] == Hs256.IntClaim(userId)
      && c.value[Jwt.UsernameClaim] == Hs256.StringClaim(username)
      && c.value[Jwt.AppIdClaim] == Hs256.IntClaim(TestAppId)
      && c.value[Jwt.ExpClaim] == Hs256.IntClaim(Jwt.Unix(now + server.auth.tokenTTL))
  {
    var before := server.auth.store.rows;
    var registered := server.Register(Transport.RegisterRequest(username, password), Some(salt));
    userId := registered.value.userId;
    var row := Storage.UserRow(userId, username, Bcrypt.GenerateFromPassword(password, Some(salt)).value, false);
    Storage.FindByUsernameAppend(before, row, username);
    var login := server.Login(Transport.LoginRequest(username, password, TestAppId), now, true);
    LoginIssuesClaims(server, username, password, row, now);
    token := login.value.token;
  }

  /** A stored user who gives the right password gets a token carrying their claims for the test app. */
  lemma LoginIssuesClaims(server: Transport.ServerAPI, username: string, password: string,
                          row: Storage.UserRow, now: int)
    requires TestServer(server)
    requires username != "" && password != ""
    requires server.auth.Account(username) == Some(row)
    requires Bcrypt.CompareHashAndPassword(row.passHash, password)
    ensures var login := server.Login(Transport.LoginRequest(username, password, TestAppId), now, true);
      && login.Ok?
      && var c := Hs256.Parse(login.value.token, TestAppSecret);
      && c.Some?
      && c.value.Keys == {Jwt.UserIdClaim, Jwt.UsernameClaim, Jwt.ExpClaim, Jwt.AppIdClaim}
      && c.value[Jwt.UserIdClaim] == Hs256.IntClaim(row.id)
      && c.value[Jwt.UsernameClaim] == Hs256.StringClaim(username)
      && c.value[Jwt.AppIdClaim] == Hs256.IntClaim(TestAppId)
      && c.value[Jwt.ExpClaim] == Hs256.IntClaim(Jwt.Unix(now + server.auth.tokenTTL))
  {
    var app := server.auth.store.apps[TestAppId];
    Jwt.NewTokenRoundTrip(row.AsUser(), app, server.auth.tokenTTL, now);
  }

  /** A second registration under the same username is refused with AlreadyExists. */
  method DuplicatedRegistration(server: Transport.ServerAPI, username: string, password: string,
                                salt1: Bcrypt.Salt, salt2: Bcrypt.Salt)
    returns (first: Result<Transport.RegisterResponse, Transport.Status>,
             second: Result<Transport.RegisterResponse, Transport.Status>)
    requires TestServer(server)
    requires username != "" && password != ""
    requires Storage.FindByUsername(server.auth.store.rows, username).None?
    modifies server.auth.store
    ensures TestServer(server)
    ensures first.Ok? && first.value.userId >= 1
    ensures second == Err(Transport.Status(Transport.AlreadyExists, "user already exists"))
  {
    var before := server.auth.store.rows;
    first := server.Register(Transport.RegisterRequest(username, password), Some(salt1));
    var row := Storage.UserRow(first.value.userId, username, Bcrypt.GenerateFromPassword(password, Some(salt1)).value, false);
    Storage.FindByUsernameAppend(before, row, username);
    second := server.Register(Transport.RegisterRequest(username, password), Some(salt2));
  }

  /**
    Logging in with a password bcrypt tells apart from the registered one (its key differs)
    gives "invalid credentials"; Bcrypt.ShortPasswordsDiffer says which passwords those are.
  */
  method InvalidPassword(server: Transport.ServerAPI, username: string, password: string, wrong: string,
                         salt: Bcrypt.Salt, now: int)
    returns (login: Result<Transport.LoginResponse, Transport.Status>)
    requires TestServer(server)
    requires username != "" && password != "" && wrong != "" && Bcrypt.Key(wrong) != Bcrypt.Key(password)
    requires Storage.FindByUsername(server.auth.store.rows, username).None?
    modifies server.auth.store
    ensures TestServer(server)
    ensures login == Err(Transport.Status(Transport.InvalidArgument, "invalid credentials"))
  {
    var before := server.auth.store.rows;
    var registered := server.Register(Transport.RegisterRequest(username, password), Some(salt));
    var row := Storage.UserRow(registered.value.userId, username,
                               Bcrypt.GenerateFromPassword(password, Some(salt)).value, false);
    Storage.FindByUsernameAppend(before, row, username);
    assert server.auth.Account(username) == Some(row);
    login := server.Login(Transport.LoginRequest(username, wrong, TestAppId), now, true);
  }

  /** A freshly registered user is not an administrator. */
  method RegisterIsAdminHappyPath(server: Transport.ServerAPI, username: string, password: string,
                                  salt: Bcrypt.Salt)
    returns (answer: Result<Transport.IsAdminResponse, Transport.Status>)
    requires TestServer(server)
    requires username != "" && password != ""
    requires Storage.FindByUsername(server.auth.store.rows, username).None?
    modifies server.auth.store
    ensures TestServer(server)
    ensures answer == Ok(Transport.IsAdminResponse(false))
  {
    var before := server.auth.store.rows;
    var registered := server.Register(Transport.RegisterRequest(username, password), Some(salt));
    var userId := registered.value.userId;
    var row := Storage.UserRow(userId, username, Bcrypt.GenerateFromPassword(password, Some(salt)).value, false);
    assert Storage.FindById(before, userId).None?;
    Storage.FindByIdAppend(before, row, userId);
    answer := server.IsAdmin(Transport.IsAdminRequest(userId));
  }

  /**
    An admin query for an id nobody has is answered Internal as the handler is
    written, and "invalid user id" by the intended handler.
  */
  method IsAdminFailCase(server: Transport.ServerAPI)
    returns (asWritten: Result<Transport.IsAdminResponse, Transport.Status>,
             intended: Result<Transport.IsAdminResponse, Transport.Status>)
    requires TestServer(server)
    requires Storage.FindById(server.auth.store.rows, 100000000).None?
    ensures asWritten == Err(Transport.InternalError)
    ensures intended == Err(Transport.Status(Transport.InvalidArgument, "invalid user id"))
  {
    asWritten := server.IsAdmin(Transport.IsAdminRequest(100000000));
    intended := server.IsAdminIntended(Transport.IsAdminRequest(100000000));
  }

  /** Registration requests with empty fields are refused, the username reported first, and nothing is stored. */
  method RegisterFailCases(server: Transport.ServerAPI, username: string, password: string)
    returns (noName: Result<Transport.RegisterResponse, Transport.Status>,
             noPassword: Result<Transport.RegisterResponse, Transport.Status>,
             neither: Result<Transport.RegisterResponse, Transport.Status>)
    requires TestServer(server)
    requires username != "" && password != ""
    modifies server.auth.store
    ensures TestServer(server)
    ensures server.auth.store.rows == old(server.auth.store.rows)
    ensures noName == Err(Transport.Status(Transport.InvalidArgument, "username is empty"))
    ensures noPassword == Err(Transport.Status(Transport.InvalidArgument, "password is empty"))
    ensures neither == Err(Transport.Status(Transport.InvalidArgument, "username is empty"))
  {
    noName := server.Register(Transport.RegisterRequest("", password), None);
    noPassword := server.Register(Transport.RegisterRequest(username, ""), None);
    neither := server.Register(Transport.RegisterRequest("", ""), None);
  }
}
