/** The entity model: the `Usuario` record (a `BaseEntity` with an integer
    key), its role enumeration, the request DTOs and the paged response. */
module Entities {
  import opened Outcomes

  /** `UsuarioPerfil`; `Administrador` is the enum's first (zero) value. */
  datatype Perfil = Administrador | Cliente

  /** The persisted user. `id` is `BaseEntity.Id`; `senha` holds whatever the
      callers stored, which the controllers make a password hash. */
  datatype Usuario = Usuario(id: int, nome: string, email: string, senha: string, perfil: Perfil)

  /** Body of the registration request: the user's fields without id or role. */
  datatype RegisterDto = RegisterDto(nome: string, email: string, senha: string)

  /** Body of the login request. */
  datatype LoginDto = LoginDto(email: string, senha: string)

  /** `PagedResultDto<Usuario>`: one page of items plus the requested page
      number, the requested page size and the number of matching rows. */
  datatype PagedResult = PagedResult(items: seq<Usuario>, currentPage: int, pageSize: int, totalCount: int)

  /** Width of the `Nome` and `Email` columns (`character varying(100)`). */
  const MaxColumnLength: nat := 100

  /** Whether the row fits the table's column widths. */
  predicate FitsColumns(u: Usuario) {
    |u.nome| <= MaxColumnLength && |u.email| <= MaxColumnLength
  }

  /** `Perfil.ToString()`, the `PerfilDescricao` property and the role claim. */
  function PerfilName(p: Perfil): string {
    match p
    case Administrador => "Administrador"
    case Cliente => "Cliente"
  }

  /** Reads a role name back, as the role check of `[Authorize(Roles = …)]`
      compares the role claim. */
  function ParsePerfil(s: string): (r: Option<Perfil>)
    ensures r.Some? <==> s == "Administrador" || s == "Cliente"
    ensures r.Some? ==> PerfilName(r.value) == s
    ensures forall p :: PerfilName(p) == s ==> r == Some(p)
  {
    if s == "Administrador" then Some(Administrador)
    else if s == "Cliente" then Some(Cliente)
    else None
  }

  /** The AutoMapper map `RegisterDto -> Usuario`: fields copied by name, the
      key and the role left at their defaults (0 and the first enum value). */
  function FromRegisterDto(d: RegisterDto): (u: Usuario)
    ensures u.nome == d.nome && u.email == d.email && u.senha == d.senha
    ensures u.id == 0
  {
    Usuario(0, d.nome, d.email, d.senha, Administrador)
  }

  /** The reverse map `Usuario -> RegisterDto` declared by `ReverseMap()`. */
  function ToRegisterDto(u: Usuario): (d: RegisterDto)
    ensures FromRegisterDto(d) == u.(id := 0, perfil := Administrador)
  {
    RegisterDto(u.nome, u.email, u.senha)
  }
}
