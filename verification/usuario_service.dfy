/** `UsuarioService`: lookup by email, registration and password login on
    top of the generic service. BCrypt, the JWT library and the clock are
    passed in: `Crypto` stands for `BC.HashPassword` and `BC.Verify`, and
    `now` for `DateTime.UtcNow` in seconds. */
module UsuarioService {
  import opened Outcomes
  import opened Entities
  import opened Store
  import opened Tokens
  import Repository
  import Service
  import UsuarioRepository

  /** The password-hashing library, left uninterpreted. */
  datatype Crypto = Crypto(hash: string -> string, verify: (string, string) -> bool)

  /** The `Jwt:Issuer` and `Jwt:Audience` configuration values. */
  datatype JwtSettings = JwtSettings(issuer: string, audience: string)

  /** `GetByEmailAsync`: its `KeyNotFoundException` clause never fires,
      because the repository already turned a missing email into a plain
      `Exception`. */
  function GetByEmail(db: Db, email: string): (r: Result<Usuario>)
    ensures r.Err? ==> r.fault == Generic
    ensures r == UsuarioRepository.GetByEmail(db, email)
  {
    WrappedKeepingKeyNotFound(UsuarioRepository.GetByEmail(db, email))
  }

  /** `RegisterAsync`: a null entity is `ArgumentNullException`; otherwise
      the entity is stored with role `Cliente`, whatever role it came with,
      straight through the repository with no existence check. */
  function Register(db: Db, e: Option<Usuario>): (r: Result<Repository.Saved>)
    ensures e.None? ==> r == Err(Argument)
    ensures e.Some? && r.Err? ==> r.fault == Generic
    ensures e.Some? ==> (r.Ok? <==> db.online && Repository.Insertable(db.rows, e.value.(perfil := Cliente)))
    ensures r.Ok? ==> r.value.entity.perfil == Cliente
    ensures r.Ok? ==> r.value.entity == e.value.(id := r.value.entity.id, perfil := Cliente)
    ensures r.Ok? ==> r.value.db.rows == db.rows + [r.value.entity]
  {
    match Service.ValidateEntity(e)
    case Fail(f) => Err(f)
    case Pass => Wrapped(Repository.Add(db, e.value.(perfil := Cliente)))
  }

  /** `GenerateJwtToken`: four claims, one of each kind, that decode to the
      user's id, name, email and role; expiry eight hours after `now`. */
  function GenerateJwtToken(user: Usuario, settings: JwtSettings, now: int): (t: Jwt)
    ensures DecodeIdentity(t) == Some(Identity(user.id, user.nome, user.email, user.perfil))
    ensures RoleOf(t) == Some(user.perfil)
    ensures |t.claims| == 4
    ensures DistinctKinds(t.claims)
    ensures t.expires - now == LifetimeHours * SecondsPerHour
    ensures t.issuer == settings.issuer && t.audience == settings.audience
  {
    var claims := IdentityClaims(Identity(user.id, user.nome, user.email, user.perfil));
    IdentityClaimsDecode(Identity(user.id, user.nome, user.email, user.perfil), claims);
    Jwt(claims, now + LifetimeHours * SecondsPerHour, settings.issuer, settings.audience)
  }

  /** `Authenticate`: looks the user up by email and checks the password.
      The `user == null` test can never succeed, since the lookup throws
      instead; so an unknown email, like a store failure, ends as a plain
      `Exception`, while a known email with a wrong password returns null. */
  function Authenticate(db: Db, email: string, password: string, crypto: Crypto, settings: JwtSettings, now: int)
    : (r: Result<Option<Jwt>>)
    ensures r.Err? <==> !db.online || email !in Emails(db.rows)
    ensures r.Err? ==> r.fault == Generic
    ensures r.Ok? ==> var user := UsuarioRepository.GetByEmail(db, email).value;
                      && (r.value.None? <==> !crypto.verify(password, user.senha))
                      && (r.value.Some? ==> r.value.value == GenerateJwtToken(user, settings, now))
  {
    Wrapped(
      match UsuarioRepository.GetByEmail(db, email)
      case Err(f) => Err(f)
      case Ok(user) =>
        if !crypto.verify(password, user.senha) then Ok(None)
        else Ok(Some(GenerateJwtToken(user, settings, now))))
  }

  /** A successful login yields a token naming exactly the stored user who
      owns the email. */
  lemma {:induction false} LoginTokenNamesTheUser(db: Db, email: string, password: string, crypto: Crypto,
                                                  settings: JwtSettings, now: int, i: nat)
    requires Valid(db) && db.online
    requires i < |db.rows| && db.rows[i].email == email
    requires crypto.verify(password, db.rows[i].senha)
    ensures Authenticate(db, email, password, crypto, settings, now).Ok?
    ensures var t := Authenticate(db, email, password, crypto, settings, now).value;
            var u := db.rows[i];
            t.Some? && DecodeIdentity(t.value) == Some(Identity(u.id, u.nome, u.email, u.perfil))
  {
    UsuarioRepository.GetByEmailIsTheUser(db, email, i);
  }
}
