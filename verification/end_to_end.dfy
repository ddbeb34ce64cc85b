/** Facts about whole requests: the authorization table, the table
    constraints every request keeps, which status each failure surfaces as
    once the controller, service and repository are composed, and the
    register-then-login round trip. */
module EndToEnd {
  import opened Outcomes
  import opened Entities
  import opened Store
  import opened Tokens
  import opened BaseController
  import opened UsuariosController
  import Repository
  import UsuarioService
  import UsuarioRepository

  /** Every request leaves the primary key and the unique email index
      intact. */
  lemma {:induction false} HandleKeepsConstraints(env: Env, caller: Caller, modelValid: bool, req: Request, db: Db)
    requires Valid(db)
    ensures Valid(Handle(env, caller, modelValid, req, db).db)
  {
    var r := Handle(env, caller, modelValid, req, db);
    if Authorize(PolicyOf(req), caller).None? && r.db != db {
      match req
      case CreateUser(entity) =>
        Repository.AddInsertsOneKey(db, entity.(senha := env.crypto.hash(entity.senha), perfil := Administrador));
      case UpdateUser(id, entity) =>
        Repository.UpdateReplacesOneKey(db, entity.(senha := env.crypto.hash(entity.senha)).(id := id));
      case DeleteUser(id) =>
        Repository.DeleteRemovesOneKey(db, id);
      case RegisterUser(dto) =>
        Repository.AddInsertsOneKey(db, FromRegisterDto(dto).(senha := env.crypto.hash(dto.senha), perfil := Cliente));
      case _ =>
    }
  }

  /** Only an administrator can change the table, except by registering. */
  lemma OnlyAdministratorsWrite(env: Env, caller: Caller, modelValid: bool, req: Request, db: Db)
    requires caller != SignedIn(Administrador) && !req.RegisterUser?
    ensures Handle(env, caller, modelValid, req, db).db == db
  {
  }

  /** Anonymous callers get 401 from every endpoint except register and
      login; a `Cliente` gets 403 from list, create, update and delete. */
  lemma AuthorizationTable(env: Env, modelValid: bool, req: Request, db: Db)
    ensures !req.RegisterUser? && !req.LoginUser? ==>
              Handle(env, Anonymous, modelValid, req, db) == Reply(StatusUnauthorized, NoBody, db)
    ensures !req.RegisterUser? && !req.LoginUser? && !req.ShowUser? ==>
              Handle(env, SignedIn(Cliente), modelValid, req, db) == Reply(StatusForbidden, NoBody, db)
    ensures req.ShowUser? ==> Handle(env, SignedIn(Cliente), modelValid, req, db).status != StatusForbidden
  {
  }

  /** An invalid model gives 400 in every base action, and nothing is
      written. */
  lemma InvalidModelIsBadRequest(env: Env, req: Request, db: Db)
    requires !req.RegisterUser? && !req.LoginUser?
    ensures Handle(env, SignedIn(Administrador), false, req, db).status == StatusBadRequest
    ensures Handle(env, SignedIn(Administrador), false, req, db).db == db
  {
  }

  /** `PUT` and `DELETE` on a positive id no row holds give 500, not 404,
      while `GET` on the same id gives 404. */
  lemma AbsentIdStatuses(env: Env, entity: Usuario, id: int, db: Db)
    requires db.online && id > 0 && id !in Ids(db.rows)
    ensures Handle(env, SignedIn(Administrador), true, UpdateUser(id, entity), db) ==
              Reply(StatusInternalServerError, Message, db)
    ensures Handle(env, SignedIn(Administrador), true, DeleteUser(id), db) ==
              Reply(StatusInternalServerError, Message, db)
    ensures Handle(env, SignedIn(Administrador), true, ShowUser(id), db) == Reply(StatusNotFound, Message, db)
  {
    forall k | 0 <= k < |db.rows|
      ensures db.rows[k].id != id
    {
      IdOfRow(db.rows, k);
    }
  }

  /** A non-positive id gives 400 to `GET` and `DELETE`, but 500 to `PUT`,
      whose service does not validate the id. */
  lemma NonPositiveIdStatuses(env: Env, entity: Usuario, id: int, db: Db)
    requires id <= 0
    ensures Handle(env, SignedIn(Administrador), true, ShowUser(id), db).status == StatusBadRequest
    ensures Handle(env, SignedIn(Administrador), true, DeleteUser(id), db).status == StatusBadRequest
    ensures Handle(env, SignedIn(Administrador), true, UpdateUser(id, entity), db).status == StatusInternalServerError
  {
  }

  /** A database that cannot be reached turns every well-formed
      administrator request into 500, and login too. */
  lemma OutageIsServerError(env: Env, req: Request, db: Db)
    requires !db.online
    requires req.ListUsers? ==> req.page >= 1 && req.pageSize >= 1
    requires req.ShowUser? || req.DeleteUser? ==> req.id > 0
    ensures Handle(env, SignedIn(Administrador), true, req, db) == Reply(StatusInternalServerError, Message, db)
  {
  }

  /** Login: an unknown email is 500, a known email with a password the hash
      does not verify is 401. */
  lemma LoginStatuses(env: Env, login: LoginDto, db: Db)
    requires Valid(db) && db.online
    ensures login.email !in Emails(db.rows) ==>
              Handle(env, Anonymous, true, LoginUser(login), db).status == StatusInternalServerError
    ensures forall i :: 0 <= i < |db.rows| && db.rows[i].email == login.email ==>
              ((Handle(env, Anonymous, true, LoginUser(login), db).status == StatusUnauthorized) <==>
               !env.crypto.verify(login.senha, db.rows[i].senha))
  {
    forall i | 0 <= i < |db.rows| && db.rows[i].email == login.email
      ensures (Handle(env, Anonymous, true, LoginUser(login), db).status == StatusUnauthorized) <==>
              !env.crypto.verify(login.senha, db.rows[i].senha)
    {
      UsuarioRepository.GetByEmailIsTheUser(db, login.email, i);
    }
  }

  /** A successful `PUT` changes exactly the user at the route's id, to the
      body with that id and a fresh hash of the submitted password. */
  lemma {:induction false} UpdateChangesOneUser(env: Env, id: int, entity: Usuario, db: Db)
    requires Valid(db)
    requires Handle(env, SignedIn(Administrador), true, UpdateUser(id, entity), db).status == StatusOk
    ensures ById(Handle(env, SignedIn(Administrador), true, UpdateUser(id, entity), db).db.rows) ==
              ById(db.rows)[id := entity.(id := id, senha := env.crypto.hash(entity.senha))]
  {
    var e := entity.(senha := env.crypto.hash(entity.senha)).(id := id);
    assert e == entity.(id := id, senha := env.crypto.hash(entity.senha));
    Repository.UpdateReplacesOneKey(db, e);
  }

  /** A successful `DELETE` removes exactly the user at that id. */
  lemma {:induction false} DeleteRemovesOneUser(env: Env, id: int, db: Db)
    requires Valid(db)
    requires Handle(env, SignedIn(Administrador), true, DeleteUser(id), db).status == StatusNoContent
    ensures ById(Handle(env, SignedIn(Administrador), true, DeleteUser(id), db).db.rows) == ById(db.rows) - {id}
  {
    var r := BaseController.Delete(db, true, id);
    assert r == Handle(env, SignedIn(Administrador), true, DeleteUser(id), db);
    assert r.db == Repository.Delete(db, id).value;
    Repository.DeleteRemovesOneKey(db, id);
  }

  /** A successful `POST` adds exactly one user, an administrator under a
      new key. */
  lemma {:induction false} CreateAddsOneAdministrator(env: Env, entity: Usuario, db: Db)
    requires Valid(db)
    requires Handle(env, SignedIn(Administrador), true, CreateUser(entity), db).status == StatusCreated
    ensures var r := Handle(env, SignedIn(Administrador), true, CreateUser(entity), db);
            && r.body.EntityBody?
            && r.body.user.perfil == Administrador
            && r.body.user.id !in ById(db.rows)
            && ById(r.db.rows) == ById(db.rows)[r.body.user.id := r.body.user]
  {
    Repository.AddInsertsOneKey(db, entity.(senha := env.crypto.hash(entity.senha), perfil := Administrador));
  }

  /** The default listing is the first ten users, with the total count. */
  lemma DefaultListing(env: Env, db: Db)
    requires db.online
    ensures var r := Handle(env, SignedIn(Administrador), true, ListUsers(DefaultPage, DefaultPageSize), db);
            && r.status == StatusOk
            && r.body.page.items == (if |db.rows| <= 10 then db.rows else db.rows[..10])
            && r.body.page.totalCount == |db.rows|
  {
    ListingIsIntendedPage(db, DefaultPage, DefaultPageSize);
    AcceptAllKeepsEverything(db.rows);
  }

  /** The 32-bit page offset as the listing endpoint shows it: page 2^29 + 1
      of size 4 wraps to a negative offset and is 500; page 2^30 + 1 of size
      4 wraps to 0 and returns the first user. */
  lemma PageOverflowAtTheEndpoint(env: Env, u: Usuario, db: Db)
    requires db.online
    ensures Handle(env, SignedIn(Administrador), true, ListUsers(0x2000_0001, 4), db).status == StatusInternalServerError
    ensures var r := Handle(env, SignedIn(Administrador), true, ListUsers(0x4000_0001, 4), Db([u], true));
            r.status == StatusOk && r.body.page.items == [u]
  {
    assert Repository.SkipCount(0x2000_0001, 4) < 0;
    Repository.PageOverflowReturnsFirstPage(u);
  }

  lemma {:induction false} AcceptAllKeepsEverything(rows: seq<Usuario>)
    ensures Filter(rows, Repository.AcceptAll) == rows
  {
    if |rows| > 0 {
      AcceptAllKeepsEverything(rows[1..]);
      assert rows == [rows[0]] + rows[1..];
    }
  }

  /** Logging in as a stored user, with a password the hash verifies,
      returns that user's token. */
  lemma {:induction false} LoginAsStoredUser(env: Env, login: LoginDto, db: Db, i: nat)
    requires Valid(db) && db.online
    requires i < |db.rows| && db.rows[i].email == login.email
    requires env.crypto.verify(login.senha, db.rows[i].senha)
    ensures Handle(env, Anonymous, true, LoginUser(login), db) ==
              Reply(StatusOk, TokenBody(UsuarioService.GenerateJwtToken(db.rows[i], env.settings, env.now)), db)
  {
    LoginReply(env, login, db, i);
    RoutesToLogin(env, login, db);
  }

  /** The anonymous endpoints run their actions for any caller. */
  lemma RoutesToLogin(env: Env, login: LoginDto, db: Db)
    ensures Handle(env, Anonymous, true, LoginUser(login), db) == Login(db, login, env)
  {
  }

  lemma RoutesToRegister(env: Env, dto: RegisterDto, db: Db)
    ensures Handle(env, Anonymous, true, RegisterUser(dto), db) == Register(db, dto, env.crypto)
  {
  }

  lemma {:induction false} LoginReply(env: Env, login: LoginDto, db: Db, i: nat)
    requires Valid(db) && db.online
    requires i < |db.rows| && db.rows[i].email == login.email
    requires env.crypto.verify(login.senha, db.rows[i].senha)
    ensures Login(db, login, env) ==
              Reply(StatusOk, TokenBody(UsuarioService.GenerateJwtToken(db.rows[i], env.settings, env.now)), db)
  {
    UsuarioRepository.GetByEmailIsTheUser(db, login.email, i);
    IdOfRow(db.rows, i);
    var a := UsuarioService.Authenticate(db, login.email, login.senha, env.crypto, env.settings, env.now);
    assert a == Ok(Some(UsuarioService.GenerateJwtToken(db.rows[i], env.settings, env.now)));
  }

  /** Registering and then logging in with the same email and password,
      given that the library verifies a password against its own hash,
      returns a token naming the new user as a `Cliente`; that role cannot
      list users. */
  lemma {:induction false} RegisterThenLogin(env: Env, dto: RegisterDto, db: Db)
    requires Valid(db)
    requires env.crypto.verify(dto.senha, env.crypto.hash(dto.senha))
    requires Handle(env, Anonymous, true, RegisterUser(dto), db).status == StatusCreated
    ensures var reg := Handle(env, Anonymous, true, RegisterUser(dto), db);
            var login := Handle(env, Anonymous, true, LoginUser(LoginDto(dto.email, dto.senha)), reg.db);
            && login.status == StatusOk
            && login.body.TokenBody?
            && DecodeIdentity(login.body.token) == Some(Identity(reg.body.user.id, dto.nome, dto.email, Cliente))
            && RoleOf(login.body.token) == Some(Cliente)
            && Handle(env, SignedIn(Cliente), true, ListUsers(1, 10), reg.db).status == StatusForbidden
  {
    var reg := Register(db, dto, env.crypto);
    RoutesToRegister(env, dto, db);
    var user := reg.body.user;
    var entity := FromRegisterDto(dto).(senha := env.crypto.hash(dto.senha), perfil := Cliente);
    Repository.AddInsertsOneKey(db, entity);
    assert Valid(reg.db) && reg.db.online;
    var rows := reg.db.rows;
    assert rows[|db.rows|] == user;
    LoginAsStoredUser(env, LoginDto(dto.email, dto.senha), reg.db, |db.rows|);
    var t := UsuarioService.GenerateJwtToken(user, env.settings, env.now);
    assert DecodeIdentity(t) == Some(Identity(user.id, dto.nome, dto.email, Cliente));
    assert Authorize(PolicyOf(ListUsers(1, 10)), SignedIn(Cliente)) == Some(StatusForbidden);
  }
}
