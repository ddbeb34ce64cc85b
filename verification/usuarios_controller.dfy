/** `UsuariosController`: the user resource. It overrides `Create` and
    `Update` to hash the password (and, on create, force the administrator
    role), adds the anonymous `register` and `login` endpoints, and guards
    every action with an authorization policy. `Handle` puts the policy
    check in front of the action a request routes to. */
module UsuariosController {
  import opened Outcomes
  import opened Entities
  import opened Store
  import opened Tokens
  import opened BaseController
  import Repository
  import UsuarioService
  import UsuarioRepository

  /** What the request pipeline supplies besides the request: the hashing
      library, the token settings and the current time. */
  datatype Env = Env(crypto: UsuarioService.Crypto, settings: UsuarioService.JwtSettings, now: int)

  /** `Create` override: the stored password is the hash of the submitted
      one, and the role is `Administrador` whatever the body says. */
  function Create(db: Db, modelValid: bool, entity: Usuario, crypto: UsuarioService.Crypto): (r: Reply)
    ensures r.status in {StatusCreated, StatusBadRequest, StatusInternalServerError}
    ensures r.status != StatusCreated ==> r.db == db
    ensures r.status == StatusCreated ==>
              && r.body.EntityBody?
              && r.body.user.perfil == Administrador
              && r.body.user.senha == crypto.hash(entity.senha)
              && r.body.user.nome == entity.nome && r.body.user.email == entity.email
              && r.db.rows == db.rows + [r.body.user]
  {
    BaseController.Create(db, modelValid, entity.(senha := crypto.hash(entity.senha), perfil := Administrador))
  }

  /** `Update` override: the password is re-hashed on every update, before
      the base action runs. */
  function Update(db: Db, modelValid: bool, id: int, entity: Usuario, crypto: UsuarioService.Crypto): (r: Reply)
    ensures r.status in {StatusOk, StatusBadRequest, StatusInternalServerError}
    ensures r.status != StatusOk ==> r.db == db
    ensures r.status == StatusOk ==>
              r.body == EntityBody(entity.(id := id, senha := crypto.hash(entity.senha)))
    ensures r.status == StatusOk ==> id > 0 && id in ById(db.rows)
    ensures r.status == StatusOk ==> Repository.Update(db, entity.(id := id, senha := crypto.hash(entity.senha))).Ok?
    ensures r.status == StatusOk ==>
              r.db == Repository.Update(db, entity.(id := id, senha := crypto.hash(entity.senha))).value
  {
    assert entity.(senha := crypto.hash(entity.senha)).(id := id) == entity.(id := id, senha := crypto.hash(entity.senha));
    BaseController.Update(db, modelValid, id, entity.(senha := crypto.hash(entity.senha)))
  }

  /** `POST /api/usuarios/register`: maps the body to a user, hashes the
      password and forces role `Cliente`. There is no model-state check and
      every exception, `ArgumentException` included, yields 500. */
  function Register(db: Db, dto: RegisterDto, crypto: UsuarioService.Crypto): (r: Reply)
    ensures r.status == StatusCreated || r.status == StatusInternalServerError
    ensures r.status == StatusInternalServerError ==> r.db == db
    ensures r.status == StatusCreated <==>
              db.online && Repository.Insertable(db.rows, FromRegisterDto(dto).(senha := crypto.hash(dto.senha), perfil := Cliente))
    ensures r.status == StatusCreated ==>
              && r.body.EntityBody?
              && r.body.user == Usuario(r.body.user.id, dto.nome, dto.email, crypto.hash(dto.senha), Cliente)
              && r.body.user.id !in Ids(db.rows)
              && r.db.rows == db.rows + [r.body.user]
  {
    var entity := FromRegisterDto(dto).(senha := crypto.hash(dto.senha), perfil := Cliente);
    match UsuarioService.Register(db, Some(entity))
    case Ok(s) => Reply(StatusCreated, EntityBody(s.entity), s.db)
    case Err(_) => Reply(StatusInternalServerError, Message, db)
  }

  /** `POST /api/usuarios/login`: 200 with the token, 401 when `Authenticate`
      returns null (a wrong password), 500 on any exception (an unknown
      email among them). */
  function Login(db: Db, dto: LoginDto, env: Env): (r: Reply)
    ensures r.db == db
    ensures r.status in {StatusOk, StatusUnauthorized, StatusInternalServerError}
    ensures r.status == StatusInternalServerError <==> !db.online || dto.email !in Emails(db.rows)
    ensures r.status == StatusUnauthorized <==>
              db.online && dto.email in Emails(db.rows) &&
              !env.crypto.verify(dto.senha, UsuarioRepository.GetByEmail(db, dto.email).value.senha)
    ensures r.status == StatusOk ==>
              r.body == TokenBody(UsuarioService.GenerateJwtToken(
                          UsuarioRepository.GetByEmail(db, dto.email).value, env.settings, env.now))
  {
    match UsuarioService.Authenticate(db, dto.email, dto.senha, env.crypto, env.settings, env.now)
    case Err(_) => Reply(StatusInternalServerError, Message, db)
    case Ok(None) => Reply(StatusUnauthorized, Message, db)
    case Ok(Some(t)) => Reply(StatusOk, TokenBody(t), db)
  }

  /** Who is calling: nobody, or the holder of a valid token with a role. */
  datatype Caller = Anonymous | SignedIn(role: Perfil)

  /** The authorization attribute on an action. */
  datatype Policy = AllowAnonymous | AnyAuthenticated | InRole(role: Perfil)

  /** A request routed to one of the controller's actions. */
  datatype Request =
    | ListUsers(page: int, pageSize: int)
    | ShowUser(id: int)
    | CreateUser(entity: Usuario)
    | UpdateUser(id: int, entity: Usuario)
    | DeleteUser(id: int)
    | RegisterUser(dto: RegisterDto)
    | LoginUser(login: LoginDto)

  /** Query defaults of `GetAll(int page = 1, int pageSize = 10)`. */
  const DefaultPage: int := 1
  const DefaultPageSize: int := 10

  /** The attributes on the actions: list, create, update and delete need
      role `Administrador`, show needs any signed-in user, register and
      login are anonymous. */
  function PolicyOf(req: Request): (p: Policy)
    ensures p.AllowAnonymous? <==> req.RegisterUser? || req.LoginUser?
    ensures p.AnyAuthenticated? <==> req.ShowUser?
    ensures p.InRole? ==> p.role == Administrador
  {
    match req
    case ListUsers(_, _) => InRole(Administrador)
    case ShowUser(_) => AnyAuthenticated
    case CreateUser(_) => InRole(Administrador)
    case UpdateUser(_, _) => InRole(Administrador)
    case DeleteUser(_) => InRole(Administrador)
    case RegisterUser(_) => AllowAnonymous
    case LoginUser(_) => AllowAnonymous
  }

  /** The authorization middleware: `None` lets the call through; otherwise
      401 for a missing identity, 403 for the wrong role. */
  function Authorize(p: Policy, c: Caller): (s: Option<int>)
    ensures s.None? <==> p.AllowAnonymous? || (c.SignedIn? && (p.InRole? ==> c.role == p.role))
    ensures s == Some(StatusUnauthorized) <==> !p.AllowAnonymous? && c.Anonymous?
    ensures s.Some? ==> s.value == StatusUnauthorized || s.value == StatusForbidden
  {
    match p
    case AllowAnonymous => None
    case AnyAuthenticated => if c.Anonymous? then Some(StatusUnauthorized) else None
    case InRole(role) =>
      if c.Anonymous? then Some(StatusUnauthorized)
      else if c.role != role then Some(StatusForbidden)
      else None
  }

  /** One request end to end: the policy check, then the action; the list,
      show and delete overrides only delegate to the base actions.
      `modelValid` is the framework's validation of the bound arguments. */
  function Handle(env: Env, caller: Caller, modelValid: bool, req: Request, db: Db): (r: Reply)
    ensures r.status in {StatusOk, StatusCreated, StatusNoContent, StatusBadRequest, StatusUnauthorized,
                         StatusForbidden, StatusNotFound, StatusInternalServerError}
    ensures r.status == StatusForbidden <==> Authorize(PolicyOf(req), caller) == Some(StatusForbidden)
    ensures r.status == StatusUnauthorized && !req.LoginUser? ==> caller.Anonymous?
    ensures r.status == StatusNotFound ==> req.ShowUser? && caller.SignedIn?
    ensures r.db != db ==>
              || req.RegisterUser?
              || (caller == SignedIn(Administrador) && (req.CreateUser? || req.UpdateUser? || req.DeleteUser?))
  {
    match Authorize(PolicyOf(req), caller)
    case Some(status) => Reply(status, NoBody, db)
    case None =>
      match req
      case ListUsers(page, pageSize) => BaseController.GetAll(db, modelValid, page, pageSize)
      case ShowUser(id) => BaseController.GetById(db, modelValid, id)
      case CreateUser(entity) => Create(db, modelValid, entity, env.crypto)
      case UpdateUser(id, entity) => Update(db, modelValid, id, entity, env.crypto)
      case DeleteUser(id) => BaseController.Delete(db, modelValid, id)
      case RegisterUser(dto) => Register(db, dto, env.crypto)
      case LoginUser(login) => Login(db, login, env)
  }
}
