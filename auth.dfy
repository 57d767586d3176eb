/**
  The authentication service: registration, login and the admin check, as
  short chains of store lookups whose failures are translated into the
  service's own error kinds.
*/
module AuthService {
  import opened Wrappers
  import Storage
  import Bcrypt
  import Hs256
  import Jwt

  /**
    What a service error is, as `errors.Is` sees it through wrapping: one of the
    service's four sentinel errors, or a store or hashing error passed on.
  */
  datatype ErrorKind =
    | InvalidCredentials
    | InvalidAppId
    | UserExists
    | InvalidUserId
    | StoreFailure(storeError: Storage.StoreError)
    | HashFailure(hashError: Bcrypt.HashError)

  /** An error annotated with the name of the operation that produced it. */
  datatype ServiceError = ServiceError(op: string, kind: ErrorKind)

  const LoginOp := "auth.Login"
  const RegisterOp := "auth.RegisterNewUser"
  const IsAdminOp := "auth.IsAdmin"

  /**
    The service: the store it reads and writes through its collaborator
    interfaces and the lifetime, in nanoseconds, of the tokens it issues.
    Neither is changed after construction.
  */
  class Auth {
    const store: Storage.Store
    const tokenTTL: int

    constructor (store: Storage.Store, tokenTTL: int)
      ensures this.store == store && this.tokenTTL == tokenTTL
    {
      this.store := store;
      this.tokenTTL := tokenTTL;
    }

    /** The stored row for `username`, if there is one. */
    ghost function Account(username: string): Option<Storage.UserRow>
      reads store
    {
      Storage.FindByUsername(store.rows, username)
    }

    /** `username` is registered and `password` matches its stored hash. */
    ghost predicate Authenticates(username: string, password: string)
      reads store
    {
      Account(username).Some? && Bcrypt.CompareHashAndPassword(Account(username).value.passHash, password)
    }

    /**
      Looks up the user, checks the password, looks up the app and issues a token.
      `now` is the instant the token is issued at; `sha256Available` is whether
      signing can succeed.
    */
    function Login(username: string, password: string, appId: int, now: int, sha256Available: bool)
      : (r: Result<Hs256.Token, ServiceError>)
      reads store
      ensures r.Err? ==> r.error.op == LoginOp && r.error.kind != InvalidAppId
      // a database failure is passed on as it is, never reported as invalid credentials
      ensures store.fault.Some? ==>
        r == Err(ServiceError(LoginOp, StoreFailure(Storage.DatabaseFault(store.fault.value))))
      // an unknown username and a wrong password give the same error
      ensures store.fault.None? && !Authenticates(username, password) ==>
        r == Err(ServiceError(LoginOp, InvalidCredentials))
      // the app is looked up only after the password check has passed
      ensures store.fault.None? && Authenticates(username, password) && appId !in store.apps ==>
        r == Err(ServiceError(LoginOp, StoreFailure(Storage.AppNotFound)))
      // a signing failure is reported as invalid credentials
      ensures store.fault.None? && Authenticates(username, password) && appId in store.apps && !sha256Available ==>
        r == Err(ServiceError(LoginOp, InvalidCredentials))
      ensures r.Ok? <==>
        store.fault.None? && Authenticates(username, password) && appId in store.apps && sha256Available
      // the token is the one issued for the stored user and the requested app
      ensures r.Ok? ==>
        Ok(r.value) == Jwt.NewToken(Account(username).value.AsUser(), store.apps[appId], tokenTTL, now, sha256Available)
    {
      match store.GetUser(username)
      case Err(e) =>
        if e == Storage.UserNotFound then Err(ServiceError(LoginOp, InvalidCredentials))
        else Err(ServiceError(LoginOp, StoreFailure(e)))
      case Ok(user) =>
        if !Bcrypt.CompareHashAndPassword(user.passwordHash, password) then
          Err(ServiceError(LoginOp, InvalidCredentials))
        else
          match store.GetApp(appId)
          case Err(e) => Err(ServiceError(LoginOp, StoreFailure(e)))
          case Ok(app) =>
            match Jwt.NewToken(user, app, tokenTTL, now, sha256Available)
            case Err(_) => Err(ServiceError(LoginOp, InvalidCredentials))
            case Ok(token) => Ok(token)
    }

    /**
      Hashes the password and saves the user. `entropy` is what the random source
      delivers for the salt. A uniqueness conflict becomes UserExists; every other
      failure is passed on.
    */
    method Register(username: string, password: string, entropy: Option<Bcrypt.Salt>)
      returns (r: Result<int, ServiceError>)
      requires store.Valid()
      modifies store
      ensures store.Valid()
      ensures r.Err? ==>
        r.error.op == RegisterOp && store.rows == old(store.rows) && store.nextId == old(store.nextId)
      ensures entropy.None? ==> r == Err(ServiceError(RegisterOp, HashFailure(Bcrypt.EntropyUnavailable)))
      ensures entropy.Some? && store.fault.Some? ==>
        r == Err(ServiceError(RegisterOp, StoreFailure(Storage.DatabaseFault(store.fault.value))))
      ensures entropy.Some? && store.fault.None? && Storage.FindByUsername(old(store.rows), username).Some? ==>
        r == Err(ServiceError(RegisterOp, UserExists))
      // on success the store holds the hash of the password, never the password itself
      ensures entropy.Some? && store.fault.None? && Storage.FindByUsername(old(store.rows), username).None? ==>
        && r == Ok(old(store.nextId))
        && store.rows == old(store.rows) +
             [Storage.UserRow(old(store.nextId), username, Bcrypt.GenerateFromPassword(password, entropy).value, false)]
        && store.nextId == old(store.nextId) + 1
    {
      var hashed := Bcrypt.GenerateFromPassword(password, entropy);
      if hashed.Err? {
        return Err(ServiceError(RegisterOp, HashFailure(hashed.error)));
      }
      var saved := store.SaveUser(username, hashed.value);
      if saved.Err? {
        if saved.error == Storage.UserExists {
          return Err(ServiceError(RegisterOp, UserExists));
        }
        return Err(ServiceError(RegisterOp, StoreFailure(saved.error)));
      }
      return Ok(saved.value);
    }

    /** Reads the admin flag of the user with this id; an unknown id is InvalidUserId. */
    function IsAdmin(userId: int): (r: Result<bool, ServiceError>)
      reads store
      ensures r.Err? ==> r.error.op == IsAdminOp
      ensures store.fault.Some? ==>
        r == Err(ServiceError(IsAdminOp, StoreFailure(Storage.DatabaseFault(store.fault.value))))
      ensures store.fault.None? && Storage.FindById(store.rows, userId).None? ==>
        r == Err(ServiceError(IsAdminOp, InvalidUserId))
      // on success the flag is the stored one
      ensures store.fault.None? && Storage.FindById(store.rows, userId).Some? ==>
        r == Ok(Storage.FindById(store.rows, userId).value.isAdmin)
    {
      match store.IsAdmin(userId)
      case Err(e) =>
        if e == Storage.UserNotFound then Err(ServiceError(IsAdminOp, InvalidUserId))
        else Err(ServiceError(IsAdminOp, StoreFailure(e)))
      case Ok(isAdmin) => Ok(isAdmin)
    }
  }
}
