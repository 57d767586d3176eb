/**
  The RPC adapter in front of the service: request validation, one service call
  per handler, and the translation of service errors into RPC status codes.
*/
module Transport {
  import opened Wrappers
  import Storage
  import Hs256
  import Bcrypt
  import AuthService

  /** The RPC status codes the handlers use. */
  datatype Code = InvalidArgument | AlreadyExists | Internal

  /** An RPC error status: a code and its message. */
  datatype Status = Status(code: Code, message: string)

  const InternalError := Status(Internal, "internal error")

  datatype LoginRequest = LoginRequest(username: string, password: string, appId: int)
  datatype RegisterRequest = RegisterRequest(username: string, password: string)
  datatype IsAdminRequest = IsAdminRequest(userId: int)

  datatype LoginResponse = LoginResponse(token: Hs256.Token)
  datatype RegisterResponse = RegisterResponse(userId: int)
  datatype IsAdminResponse = IsAdminResponse(isAdmin: bool)

  /** The zero value an unset numeric request field holds. */
  const EmptyValue := 0

  /** A Go error as a handler inspects it: an RPC status or a service error. */
  datatype Failure = StatusFailure(status: Status) | ServiceFailure(error: AuthService.ServiceError)

  /** `errors.Is(err, target)` for one of the service's error kinds. */
  function ErrorsIs(err: Failure, target: AuthService.ErrorKind): bool
  {
    err.ServiceFailure? && err.error.kind == target
  }

  // ---------------------------------------------------------------------------
  // Validation

  /** The empty fields of a login request, in the order the request declares them. */
  function MissingLoginFields(req: LoginRequest): seq<string>
  {
    (if req.username == "" then ["username"] else [])
    + (if req.password == "" then ["password"] else [])
    + (if req.appId == EmptyValue then ["appId"] else [])
  }

  /** The empty fields of a registration request, in declaration order. */
  function MissingRegisterFields(req: RegisterRequest): seq<string>
  {
    (if req.username == "" then ["username"] else [])
    + (if req.password == "" then ["password"] else [])
  }

  /** Rejects a login request with an empty field, naming only the first one. */
  function ValidateLogin(req: LoginRequest): (r: Option<Status>)
    ensures r.None? <==> req.username != "" && req.password != "" && req.appId != EmptyValue
    ensures r.None? <==> MissingLoginFields(req) == []
    ensures r.Some? ==> r.value == Status(InvalidArgument, MissingLoginFields(req)[0] + " is required")
  {
    if req.username == "" then Some(Status(InvalidArgument, "username is required"))
    else if req.password == "" then Some(Status(InvalidArgument, "password is required"))
    else if req.appId == EmptyValue then Some(Status(InvalidArgument, "appId is required"))
    else None
  }

  /** Rejects a registration request with an empty field, naming only the first one. */
  function ValidateRegister(req: RegisterRequest): (r: Option<Status>)
    ensures r.None? <==> req.username != "" && req.password != ""
    ensures r.None? <==> MissingRegisterFields(req) == []
    ensures r.Some? ==> r.value == Status(InvalidArgument, MissingRegisterFields(req)[0] + " is empty")
  {
    if req.username == "" then Some(Status(InvalidArgument, "username is empty"))
    else if req.password == "" then Some(Status(InvalidArgument, "password is empty"))
    else None
  }

  /** Rejects an admin query for user id 0. */
  function ValidateIsAdmin(req: IsAdminRequest): (r: Option<Status>)
    ensures r.None? <==> req.userId != EmptyValue
    ensures r.Some? ==> r.value == Status(InvalidArgument, "userId is empty")
  {
    if req.userId == EmptyValue then Some(Status(InvalidArgument, "userId is empty")) else None
  }

  // ---------------------------------------------------------------------------
  // Error translation

  /** Invalid credentials become InvalidArgument; every other login error is Internal. */
  function LoginErrorStatus(e: AuthService.ServiceError): (s: Status)
    ensures s.code == InvalidArgument <==> ErrorsIs(ServiceFailure(e), AuthService.InvalidCredentials)
    ensures s.code == InvalidArgument ==> s.message == "invalid credentials"
    ensures s.code != InvalidArgument ==> s == InternalError
  {
    if ErrorsIs(ServiceFailure(e), AuthService.InvalidCredentials) then Status(InvalidArgument, "invalid credentials")
    else InternalError
  }

  /** A username conflict becomes AlreadyExists; every other registration error is Internal. */
  function RegisterErrorStatus(e: AuthService.ServiceError): (s: Status)
    ensures s.code == AlreadyExists <==> ErrorsIs(ServiceFailure(e), AuthService.UserExists)
    ensures s.code == AlreadyExists ==> s.message == "user already exists"
    ensures s.code != AlreadyExists ==> s == InternalError
  {
    if ErrorsIs(ServiceFailure(e), AuthService.UserExists) then Status(AlreadyExists, "user already exists")
    else InternalError
  }

  /** Every admin-check error is Internal, an unknown user id included. */
  function IsAdminErrorStatus(e: AuthService.ServiceError): Status
  {
    InternalError
  }

  /** The translation the admin check evidently intends: an unknown user id is InvalidArgument. */
  function IsAdminErrorStatusIntended(e: AuthService.ServiceError): (s: Status)
    ensures s.code == InvalidArgument <==> ErrorsIs(ServiceFailure(e), AuthService.InvalidUserId)
    ensures s.code == InvalidArgument ==> s.message == "invalid user id"
    ensures s.code != InvalidArgument ==> s == InternalError
  {
    if ErrorsIs(ServiceFailure(e), AuthService.InvalidUserId) then Status(InvalidArgument, "invalid user id")
    else InternalError
  }

  // ---------------------------------------------------------------------------
  // Handlers

  /** The RPC server: one handler per service operation. */
  class ServerAPI {
    const auth: AuthService.Auth

    constructor (auth: AuthService.Auth)
      ensures this.auth == auth
    {
      this.auth := auth;
    }

    /** Validates, logs in, and answers with the token or a status. */
    function Login(req: LoginRequest, now: int, sha256Available: bool): (r: Result<LoginResponse, Status>)
      reads auth.store
      // a request that fails validation is answered without consulting the service
      ensures ValidateLogin(req).Some? ==> r == Err(ValidateLogin(req).value)
      ensures ValidateLogin(req).None? ==>
        var out := auth.Login(req.username, req.password, req.appId, now, sha256Available);
        && (r.Ok? <==> out.Ok?)
        && (r.Ok? ==> r.value.token == out.value)
        && (r.Err? ==> r.error == LoginErrorStatus(out.error))
      ensures ValidateLogin(req).None? && auth.store.fault.None? && !auth.Authenticates(req.username, req.password) ==>
        r == Err(Status(InvalidArgument, "invalid credentials"))
      ensures ValidateLogin(req).None? && auth.store.fault.Some? ==> r == Err(InternalError)
      ensures (ValidateLogin(req).None? && auth.store.fault.None? && auth.Authenticates(req.username, req.password)
               && req.appId !in auth.store.apps) ==> r == Err(InternalError)
    {
      match ValidateLogin(req)
      case Some(s) => Err(s)
      case None =>
        match auth.Login(req.username, req.password, req.appId, now, sha256Available)
        case Err(e) => Err(LoginErrorStatus(e))
        case Ok(token) => Ok(LoginResponse(token))
    }

    /** Validates, registers, and answers with the new user id or a status. */
    method Register(req: RegisterRequest, entropy: Option<Bcrypt.Salt>) returns (r: Result<RegisterResponse, Status>)
      requires auth.store.Valid()
      modifies auth.store
      ensures auth.store.Valid()
      ensures r.Err? ==> auth.store.rows == old(auth.store.rows) && auth.store.nextId == old(auth.store.nextId)
      // a request that fails validation is answered without consulting the service
      ensures ValidateRegister(req).Some? ==> r == Err(ValidateRegister(req).value)
      ensures ValidateRegister(req).None? && (entropy.None? || auth.store.fault.Some?) ==> r == Err(InternalError)
      ensures (ValidateRegister(req).None? && entropy.Some? && auth.store.fault.None?
               && Storage.FindByUsername(old(auth.store.rows), req.username).Some?) ==>
        r == Err(Status(AlreadyExists, "user already exists"))
      ensures (ValidateRegister(req).None? && entropy.Some? && auth.store.fault.None?
               && Storage.FindByUsername(old(auth.store.rows), req.username).None?) ==>
        && r == Ok(RegisterResponse(old(auth.store.nextId)))
        && auth.store.rows == old(auth.store.rows) +
             [Storage.UserRow(old(auth.store.nextId), req.username,
                              Bcrypt.GenerateFromPassword(req.password, entropy).value, false)]
        && auth.store.nextId == old(auth.store.nextId) + 1
    {
      var invalid := ValidateRegister(req);
      if invalid.Some? {
        return Err(invalid.value);
      }
      var out := auth.Register(req.username, req.password, entropy);
      if out.Err? {
        return Err(RegisterErrorStatus(out.error));
      }
      return Ok(RegisterResponse(out.value));
    }

    /**
      Validates, checks the admin flag, and answers with it or a status. The branch
      that would report a validation error as "invalid user id" never fires: a
      validation error is a status, not a service error.
    */
    function IsAdmin(req: IsAdminRequest): (r: Result<IsAdminResponse, Status>)
      reads auth.store
      ensures ValidateIsAdmin(req).Some? ==> r == Err(Status(InvalidArgument, "userId is empty"))
      ensures ValidateIsAdmin(req).None? ==>
        var out := auth.IsAdmin(req.userId);
        && (r.Ok? <==> out.Ok?)
        && (r.Ok? ==> r.value.isAdmin == out.value)
        && (r.Err? ==> r.error == InternalError)
    {
      match ValidateIsAdmin(req)
      case Some(s) =>
        if ErrorsIs(StatusFailure(s), AuthService.InvalidUserId) then Err(Status(InvalidArgument, "invalid user id"))
        else Err(s)
      case None =>
        match auth.IsAdmin(req.userId)
        case Err(e) => Err(IsAdminErrorStatus(e))
        case Ok(isAdmin) => Ok(IsAdminResponse(isAdmin))
    }

    /** The admin-check handler with the intended translation of an unknown user id. */
    function IsAdminIntended(req: IsAdminRequest): (r: Result<IsAdminResponse, Status>)
      reads auth.store
      ensures ValidateIsAdmin(req).Some? ==> r == Err(Status(InvalidArgument, "userId is empty"))
      ensures ValidateIsAdmin(req).None? && auth.store.fault.None? && Storage.FindById(auth.store.rows, req.userId).None? ==>
        r == Err(Status(InvalidArgument, "invalid user id"))
      ensures ValidateIsAdmin(req).None? && auth.store.fault.Some? ==> r == Err(InternalError)
      ensures ValidateIsAdmin(req).None? && auth.store.fault.None? && Storage.FindById(auth.store.rows, req.userId).Some? ==>
        r == Ok(IsAdminResponse(Storage.FindById(auth.store.rows, req.userId).value.isAdmin))
    {
      match ValidateIsAdmin(req)
      case Some(s) => Err(s)
      case None =>
        match auth.IsAdmin(req.userId)
        case Err(e) => Err(IsAdminErrorStatusIntended(e))
        case Ok(isAdmin) => Ok(IsAdminResponse(isAdmin))
    }
  }

  /** As written, an admin query for an unknown user id is answered Internal, not "invalid user id". */
  lemma IsAdminUnknownUserIsInternal(server: ServerAPI, userId: int)
    requires userId != EmptyValue
    requires server.auth.store.fault.None? && Storage.FindById(server.auth.store.rows, userId).None?
    ensures server.IsAdmin(IsAdminRequest(userId)) == Err(InternalError)
    ensures server.IsAdminIntended(IsAdminRequest(userId)) == Err(Status(InvalidArgument, "invalid user id"))
  {
  }
}
