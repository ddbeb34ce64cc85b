# Users REST API template — a Dafny model of its CRUD pipeline

This project models the request pipeline of a small ASP.NET Core users API.
The pipeline has three layers:

- a generic repository over an Entity Framework `DbSet<Usuario>` backed by PostgreSQL;
- a generic service that validates arguments and re-wraps exceptions;
- a generic controller that turns the surviving exception kind into an HTTP status.

On top of these sit the user-specific pieces: lookup by email, registration, password login with a JWT, and the per-action authorization attributes.

Everything is a pure function over an immutable table:

- The table is `Store.Db`. It holds the rows in the order an unordered query returns them, and an `online` flag. When `online` is false, every query and save throws, so the paths that re-wrap a store failure are reachable.
- `Store.ById` views the rows as a `map<int, Usuario>` keyed by `Id`.
- `Store.Valid` is the schema's two constraints: the primary key on `Id` and the unique index on `Email`.
- A C# call that returns or throws becomes an `Outcomes.Result`. Its error side is one of three exception kinds: `Argument` (covering `ArgumentNullException`), `KeyNotFound`, or `Generic` (any other exception, re-thrown as a plain `Exception`).
- Controller actions return a `Reply`: a status, a body, and the table as the request left it.

Library calls and ambient state are parameters:

- `UsuarioService.Crypto` stands for BCrypt's `HashPassword` and `Verify`, left uninterpreted.
- `UsuarioService.JwtSettings` carries the issuer and audience.
- `now` is the clock, in seconds.
- `modelValid` is the framework's data-annotation validation.
- `Caller` is the identity the authentication middleware established.

Modules follow the source files:

| module | source |
|---|---|
| `Entities` | `Models/Entities/Usuario.cs`, `BaseEntity.cs`, `Models/Dtos/*`, `Mappings/AutoMapperProfile.cs` |
| `Store` | the `Usuarios` table (`Data/UserConfiguration.cs`, the migration) |
| `Repository` | `Repositories/Repository.cs` |
| `UsuarioRepository` | `Repositories/UsuarioRepository.cs` |
| `Service` | `Services/Service.cs` |
| `Tokens`, `UsuarioService` | `Services/UsuarioService.cs` |
| `BaseController` | `Controllers/BaseController.cs` |
| `UsuariosController` | `Controllers/UsuariosController.cs` |
| `EndToEnd` | properties of whole requests |
| `Outcomes`, `Int32` | exception kinds and C# `int` arithmetic |

Three behaviours of the code that a caller may not expect:

- A login with an unknown email is 500, not a null result and 401. `GetByEmailAsync` throws instead of returning null, so the `user == null` test in `Authenticate` never succeeds.
- `PUT` and `DELETE` on a missing id are 500, not 404. The service throws `KeyNotFoundException` inside its own `try`, which re-throws it as a plain `Exception`.
- The service does not validate the id of an update. A `PUT` on a non-positive id is therefore 500, not 400.

## Model

| member | source | states |
|---|---|---|
| `Outcomes.Wrapped` | rest-api-dotnet-template/Services/Service.cs:40-47 | a catch-all clause passes success through and turns every exception into a plain `Exception` |
| `Outcomes.WrappedKeepingKeyNotFound` | rest-api-dotnet-template/Services/Service.cs:56-67 | with a `KeyNotFoundException` clause first, that kind survives and nothing becomes `ArgumentException` |
| `Int32.Wrap` | rest-api-dotnet-template/Repositories/Repository.cs:53 | unchecked `int` arithmetic yields the unique 32-bit value congruent to the exact result, and the exact result when it fits |
| `Entities.ParsePerfil` | rest-api-dotnet-template/Models/Entities/Usuario.cs:26-38 | the role names `Administrador` and `Cliente` read back to their role, and nothing else does |
| `Entities.FromRegisterDto` | rest-api-dotnet-template/Mappings/AutoMapperProfile.cs:10 | the DTO-to-user map copies name, email and password and leaves the key at 0 |
| `Entities.ToRegisterDto` | rest-api-dotnet-template/Mappings/AutoMapperProfile.cs:10 | the reverse map loses nothing: mapping it forward again gives the user with default key and role |
| `Store.First` | rest-api-dotnet-template/Repositories/Repository.cs:91-92 | `FirstOrDefault`: the position found satisfies the predicate and none before it does; `None` exactly when no element does |
| `Store.Filter` | rest-api-dotnet-template/Repositories/Repository.cs:41-44 | `Where`: an element is in the result iff it is stored and the filter admits it |
| `Store.Slice` | rest-api-dotnet-template/Repositories/Repository.cs:52-55 | `Skip`/`Take`: the elements from the offset on, as many as remain up to the take count |
| `Store.Without` | rest-api-dotnet-template/Repositories/Repository.cs:137 | removing a row keeps every other row in order |
| `Store.IndexOf` | rest-api-dotnet-template/Repositories/Repository.cs:91 | the first row holding a stored key |
| `Store.ById` | rest-api-dotnet-template/Models/Entities/BaseEntity.cs:7-8 | the map view has exactly the stored keys, each mapped to a stored row with that key |
| `Store.FreshId` | rest-api-dotnet-template/Migrations/20240913184827_m00-AddTableUsuarios.cs:20-21 | a generated key is positive and greater than every stored key |
| `Store.UniqueIds` | rest-api-dotnet-template/Migrations/20240913184827_m00-AddTableUsuarios.cs:29 | the primary key: no two rows share an `Id` |
| `Store.UniqueEmails` | rest-api-dotnet-template/Data/UserConfiguration.cs:12 | the unique index on `Email`: no two rows share an email |
| `Store.Valid` | rest-api-dotnet-template/Migrations/20240913184827_m00-AddTableUsuarios.cs:27-45 | the states the table can be in: both constraints hold |
| `Store.ByIdAt` | rest-api-dotnet-template/Models/Entities/BaseEntity.cs:7-8 | under the primary key, the map view holds each row at its own key |
| `Store.ByIdUnique` | rest-api-dotnet-template/Models/Entities/BaseEntity.cs:7-8 | a map with the stored keys that holds every row at its key is the map view |
| `Store.UniqueIdsWithout` | rest-api-dotnet-template/Repositories/Repository.cs:137-138 | removing a row keeps the primary key |
| `Store.IdsWithout` | rest-api-dotnet-template/Repositories/Repository.cs:137-138 | removing a row under the primary key removes its key, and only its key, from the key set |
| `Store.ByIdWithout` | rest-api-dotnet-template/Repositories/Repository.cs:137-138 | removing a row keeps the primary key and removes exactly its key from the map view |
| `Store.IdsReplace` | rest-api-dotnet-template/Repositories/Repository.cs:123-124 | replacing a row by one with the same key keeps the key set and the primary key |
| `Store.ByIdReplace` | rest-api-dotnet-template/Repositories/Repository.cs:123-124 | replacing a row changes the map view at that key only |
| `Store.IdsAppend` | rest-api-dotnet-template/Repositories/Repository.cs:110-111 | appending a row with a new key keeps the primary key and adds exactly that key to the key set |
| `Store.ByIdAppend` | rest-api-dotnet-template/Repositories/Repository.cs:110-111 | appending a row with a new key adds exactly that key to the map view |
| `Store.FilterCount` | rest-api-dotnet-template/Repositories/Repository.cs:51 | under the primary key, the filtered count is the number of stored users the filter admits |
| `Repository.SkipCount` | rest-api-dotnet-template/Repositories/Repository.cs:53 | the 32-bit offset equals `(page - 1) * pageSize` whenever that fits in an `int` |
| `Repository.GetAllAsWritten` | rest-api-dotnet-template/Repositories/Repository.cs:33-69 | the page as written: echoes page and size, counts all matches, and returns the consecutive matches from the wrapped offset on, at most `pageSize` of them and as many as remain; a negative offset or limit and a store failure are plain `Exception`s |
| `Repository.GetAll` | rest-api-dotnet-template/Repositories/Repository.cs:33-69 | the intended page: echoes page and size, `TotalCount` counts all matches whatever the page, and the items are the matches from `(page - 1) * pageSize` on, at most `pageSize` of them and as many as remain |
| `Repository.GetAllAsWrittenInRange` | rest-api-dotnet-template/Repositories/Repository.cs:53 | the code as written and the intended page agree whenever the offset fits in 32 bits |
| `Repository.PageOverflowReturnsFirstPage` | rest-api-dotnet-template/Repositories/Repository.cs:53 | page 1073741825 of size 4 returns the first row as written, and nothing as intended |
| `Repository.TotalCountIsMatchingCount` | rest-api-dotnet-template/Repositories/Repository.cs:41-51 | `TotalCount` is the number of stored users the filter admits |
| `Repository.EveryMatchOnItsPage` | rest-api-dotnet-template/Repositories/Repository.cs:52-55 | pages of one size partition the matches: match `j` is item `j % size` of page `j / size + 1` |
| `Repository.GetById` | rest-api-dotnet-template/Repositories/Repository.cs:71-104 | a non-positive id is `ArgumentException` before the store is touched; with the store up it succeeds iff some stored row the filter admits has the key, and returns the first such row; `KeyNotFoundException` exactly when no row matches, kept as such by the catch; a store failure is a plain `Exception` |
| `Repository.GetByIdIsMapLookup` | rest-api-dotnet-template/Repositories/Repository.cs:91-94 | without a filter, lookup succeeds iff the key is stored and returns the map view's row |
| `Repository.Exists` | rest-api-dotnet-template/Repositories/Repository.cs:146-159 | `false` for a non-positive id without touching the store, otherwise true iff some row has that key |
| `Repository.Insertable` | rest-api-dotnet-template/Repositories/Repository.cs:110-111 | what the store accepts as a new row: both constraints and the 100-character columns hold afterwards, a zero key being generated and any other key kept |
| `Repository.Replaceable` | rest-api-dotnet-template/Repositories/Repository.cs:123-124 | what the store accepts as a replacement for a stored row: the columns fit and no other row holds the email |
| `Repository.Add` | rest-api-dotnet-template/Repositories/Repository.cs:106-117 | succeeds iff the store is up and the row fits the columns, key and email index; the row is appended with only its key filled in, and a given non-zero key is kept |
| `Repository.AddInsertsOneKey` | rest-api-dotnet-template/Repositories/Repository.cs:110-111 | an insert keeps both constraints and adds exactly one key to the map view |
| `Repository.Update` | rest-api-dotnet-template/Repositories/Repository.cs:119-130 | for a non-zero key, succeeds iff the key is stored and the new row keeps the email index and column widths; the row count is unchanged |
| `Repository.UpdateReplacesOneKey` | rest-api-dotnet-template/Repositories/Repository.cs:119-124 | an update keeps both constraints and changes the map view at the entity's key only |
| `Repository.Delete` | rest-api-dotnet-template/Repositories/Repository.cs:132-144 | succeeds iff the id is positive and stored; a bad or missing id is re-thrown as a plain `Exception` |
| `Repository.DeleteRemovesOneKey` | rest-api-dotnet-template/Repositories/Repository.cs:132-143 | a delete keeps both constraints and removes exactly that key from the map view |
| `Service.ValidateId` | rest-api-dotnet-template/Services/Service.cs:140-144 | fails with `ArgumentException` iff the id is not positive |
| `Service.ValidateEntity` | rest-api-dotnet-template/Services/Service.cs:146-150 | fails with `ArgumentNullException` iff the entity is null |
| `Service.ValidatePaginationParameters` | rest-api-dotnet-template/Services/Service.cs:152-159 | fails with `ArgumentException` iff page or page size is below 1 |
| `Service.ValidateFieldsToUpdate` | rest-api-dotnet-template/Services/Service.cs:161-165 | fails with `ArgumentException` iff the dictionary is null or empty |
| `Service.GetAll` | rest-api-dotnet-template/Services/Service.cs:34-48 | bad paging is `ArgumentException` before the repository runs; otherwise the repository's page as the code computes it (32-bit offset), succeeding iff the store is up and the wrapped offset is not negative; every other failure is a plain `Exception` |
| `Service.GetAllIsIntendedInRange` | rest-api-dotnet-template/Services/Service.cs:34-48 | while `(page - 1) * pageSize` fits in an `int`, the service succeeds iff the store is up and returns the intended page |
| `Service.GetById` | rest-api-dotnet-template/Services/Service.cs:50-68 | a non-positive id is `ArgumentException`; otherwise exactly the repository's outcome, `KeyNotFoundException` preserved |
| `Service.Add` | rest-api-dotnet-template/Services/Service.cs:70-82 | a null entity is `ArgumentNullException`; otherwise the repository insert |
| `Service.Update` | rest-api-dotnet-template/Services/Service.cs:84-103 | a null entity is `ArgumentNullException`; every other failure, a missing or non-positive key included, is a plain `Exception`; success only for a stored positive key |
| `Service.Delete` | rest-api-dotnet-template/Services/Service.cs:105-124 | a non-positive id is `ArgumentException`; a missing id a plain `Exception`; succeeds iff the store is up and the id stored |
| `Service.Exists` | rest-api-dotnet-template/Services/Service.cs:126-138 | a non-positive id is `ArgumentException`; otherwise whether the key is stored |
| `Service.ExistsDisagreesOnNonPositive` | rest-api-dotnet-template/Services/Service.cs:126-138 | service and repository existence checks differ exactly on non-positive ids |
| `Tokens.NatToDecimal` | rest-api-dotnet-template/Services/UsuarioService.cs:87 | the decimal rendering is non-empty and all digits |
| `Tokens.DecimalRoundTrip` | rest-api-dotnet-template/Services/UsuarioService.cs:87 | reading the decimal digits back gives the number |
| `Tokens.IntToString` | rest-api-dotnet-template/Services/UsuarioService.cs:87 | the id claim parses back to the id, negative ids included |
| `Tokens.FindClaim` | rest-api-dotnet-template/Services/UsuarioService.cs:85-91 | a claim of a kind is found iff one is present, with that claim's value |
| `Tokens.ClaimOfDistinctKinds` | rest-api-dotnet-template/Services/UsuarioService.cs:85-91 | when no two claims share a kind, a lookup by a claim's kind returns that claim's value |
| `Tokens.IdentityClaimsDecode` | rest-api-dotnet-template/Services/UsuarioService.cs:85-91 | the four claims written for an identity have distinct kinds and read back as that identity and its role |
| `UsuarioRepository.GetByEmail` | rest-api-dotnet-template/Repositories/UsuarioRepository.cs:15-27 | never null: succeeds iff the store is up and some row has the email, returning the first such row; no match, like a store failure, is a plain `Exception` |
| `UsuarioRepository.GetByEmailIsTheUser` | rest-api-dotnet-template/Repositories/UsuarioRepository.cs:19 | under the unique email index the first match is the only user with that email |
| `UsuarioService.GetByEmail` | rest-api-dotnet-template/Services/UsuarioService.cs:31-45 | the `KeyNotFoundException` clause never fires: the outcome is the repository's, and a failure is a plain `Exception` |
| `UsuarioService.Register` | rest-api-dotnet-template/Services/UsuarioService.cs:47-60 | a null entity is `ArgumentNullException`; otherwise the entity is appended with role `Cliente` whatever its role, with no existence check |
| `UsuarioService.GenerateJwtToken` | rest-api-dotnet-template/Services/UsuarioService.cs:79-99 | four claims, one of each kind, that decode to the user's id, name, email and role; expiry eight hours after issue |
| `UsuarioService.Authenticate` | rest-api-dotnet-template/Services/UsuarioService.cs:62-77 | throws (plain `Exception`) iff the store is down or the email unknown; null iff the password does not verify against the found user's hash; otherwise that user's token |
| `UsuarioService.LoginTokenNamesTheUser` | rest-api-dotnet-template/Services/UsuarioService.cs:62-77 | with a verifying password, the token names exactly the stored owner of the email |
| `BaseController.StatusOf` | rest-api-dotnet-template/Controllers/BaseController.cs:122-133 | `ArgumentException` is 400, `KeyNotFoundException` 404 only where the action catches it, everything else 500 |
| `BaseController.GetAll` | rest-api-dotnet-template/Controllers/BaseController.cs:24-44 | 400 iff the model is invalid or paging is bad; 200 with the page as the code computes it iff the store is up and the wrapped offset is not negative, 500 otherwise; never 404; nothing written |
| `BaseController.ListingIsIntendedPage` | rest-api-dotnet-template/Controllers/BaseController.cs:24-44 | while the offset fits in an `int`, a valid listing on a reachable store is 200 with the intended page |
| `BaseController.GetById` | rest-api-dotnet-template/Controllers/BaseController.cs:51-76 | 400 iff model invalid or id not positive; 404 iff no row has the id; 500 iff the store is down; 200 with the row otherwise |
| `BaseController.Create` | rest-api-dotnet-template/Controllers/BaseController.cs:82-102 | 400 iff model invalid; 201 with the saved entity, appended, iff the insert is possible; never 404; a failure writes nothing |
| `BaseController.Update` | rest-api-dotnet-template/Controllers/BaseController.cs:109-134 | the route id replaces the body id; 200 iff the id is positive and stored and the update succeeds; never 404; a failure writes nothing |
| `BaseController.Delete` | rest-api-dotnet-template/Controllers/BaseController.cs:141-165 | 400 iff model invalid or id not positive; 204 iff the id is stored and the store up; never 404 |
| `BaseController.UpdateIgnoresBodyId` | rest-api-dotnet-template/Controllers/BaseController.cs:118 | the reply does not depend on the id in the body |
| `UsuariosController.Create` | rest-api-dotnet-template/Controllers/UsuariosController.cs:39-44 | a created user is an `Administrador` whose stored password is the hash of the submitted one |
| `UsuariosController.Update` | rest-api-dotnet-template/Controllers/UsuariosController.cs:49-53 | a successful update writes the body, under the route id and with a fresh hash of the submitted password, as the repository update of that row, and replies with it |
| `UsuariosController.Register` | rest-api-dotnet-template/Controllers/UsuariosController.cs:69-83 | only 201 or 500, never 400; a registered user is a `Cliente` with the hashed password under a new key |
| `UsuariosController.Login` | rest-api-dotnet-template/Controllers/UsuariosController.cs:91-108 | 500 iff store down or email unknown; 401 iff the password does not verify; 200 with the user's token otherwise; nothing written |
| `UsuariosController.PolicyOf` | rest-api-dotnet-template/Controllers/UsuariosController.cs:21-86 | register and login are anonymous, show needs any signed-in caller, and every other action needs role `Administrador` |
| `UsuariosController.Authorize` | rest-api-dotnet-template/Controllers/UsuariosController.cs:21-64 | a call passes iff the action is anonymous or the caller is signed in with the required role; 401 exactly for a missing identity |
| `UsuariosController.Handle` | rest-api-dotnet-template/Controllers/UsuariosController.cs:21-61 | the policy check runs before the action and the list, show and delete overrides delegate to the base actions: 403 exactly for a signed-in caller with the wrong role, 401 outside login only for an anonymous caller, 404 only from show, and the table changes only through register or an administrator's create, update or delete |
| `EndToEnd.HandleKeepsConstraints` | rest-api-dotnet-template/Data/UserConfiguration.cs:12 | every request keeps the primary key and the unique email index |
| `EndToEnd.OnlyAdministratorsWrite` | rest-api-dotnet-template/Controllers/UsuariosController.cs:21-64 | a caller who is not an administrator changes the table only by registering |
| `EndToEnd.AuthorizationTable` | rest-api-dotnet-template/Controllers/UsuariosController.cs:21-64 | anonymous callers get 401 except on register and login; a `Cliente` gets 403 on list, create, update and delete but may show |
| `EndToEnd.InvalidModelIsBadRequest` | rest-api-dotnet-template/Controllers/BaseController.cs:28-31 | an invalid model is 400 in every base action and writes nothing |
| `EndToEnd.AbsentIdStatuses` | rest-api-dotnet-template/Services/Service.cs:90-101 | on a missing positive id, `PUT` and `DELETE` are 500 while `GET` is 404 |
| `EndToEnd.NonPositiveIdStatuses` | rest-api-dotnet-template/Services/Service.cs:84-96 | a non-positive id is 400 for `GET` and `DELETE` but 500 for `PUT` |
| `EndToEnd.OutageIsServerError` | rest-api-dotnet-template/Controllers/BaseController.cs:40-43 | with the store down every well-formed administrator request and login is 500 |
| `EndToEnd.LoginStatuses` | rest-api-dotnet-template/Controllers/UsuariosController.cs:95-107 | an unknown email is 500; for a known email, 401 iff the password does not verify |
| `EndToEnd.LoginReply` | rest-api-dotnet-template/Controllers/UsuariosController.cs:91-108 | logging in as a stored user with a password the hash verifies is 200 with exactly that user's token |
| `EndToEnd.LoginAsStoredUser` | rest-api-dotnet-template/Controllers/UsuariosController.cs:85-108 | the same through the anonymous login route |
| `EndToEnd.UpdateChangesOneUser` | rest-api-dotnet-template/Controllers/UsuariosController.cs:49-53 | a successful `PUT` changes exactly the route id's entry, to the body with a rehashed password |
| `EndToEnd.DeleteRemovesOneUser` | rest-api-dotnet-template/Controllers/BaseController.cs:141-151 | a successful `DELETE` removes exactly that id |
| `EndToEnd.CreateAddsOneAdministrator` | rest-api-dotnet-template/Controllers/UsuariosController.cs:39-44 | a successful `POST` adds exactly one new key, holding an administrator |
| `EndToEnd.DefaultListing` | rest-api-dotnet-template/Controllers/BaseController.cs:24 | the default listing is the first ten users with the full count |
| `EndToEnd.PageOverflowAtTheEndpoint` | rest-api-dotnet-template/Repositories/Repository.cs:53 | at the listing endpoint, page 536870913 of size 4 is 500 (negative wrapped offset) and page 1073741825 of size 4 returns the first user |
| `EndToEnd.AcceptAllKeepsEverything` | rest-api-dotnet-template/Repositories/Repository.cs:41-44 | without a filter every row is kept |
| `EndToEnd.RegisterThenLogin` | rest-api-dotnet-template/Controllers/UsuariosController.cs:69-107 | after registering, logging in with the same credentials yields a token naming the new user as `Cliente`, and that role is refused the listing |

## Left out

- Entities.Perfil: has only the two named roles. In the code `UsuarioPerfil` is an integer-backed enum that is neither range-checked nor string-bound, so an administrator's `PUT` with `"perfil": 5` is stored as 5. That user's token then carries role `"5"`, which names no role. The model cannot represent such a user, so `UsuarioService.GenerateJwtToken`'s promise that the role claim decodes holds only for the two named roles.
- Generic entity types: the repository, service and controller are modelled at their one instantiation, `Usuario`.
- `includes` (eager loading): there are no related entities, so an include changes nothing.
- The async/`Task` machinery, EF change tracking and transactions: each call is a pure step from one table to the next.
- Real key generation: PostgreSQL's identity sequence is replaced by `Store.FreshId` (one more than the largest key). A zero key asks the store for a key; any other key is inserted as given.
- `TotalCount` overflow above 2^31 − 1 matching rows.
- Row order: an unordered PostgreSQL query has no defined order. The model fixes it as the sequence order of `Store.Db.rows`.
- BCrypt salting: `hash` is an uninterpreted function parameter, so two hashes of the same password being different is not modelled.
- `BC.Verify` throwing on a malformed stored hash: not modelled.
- JWT signing, key encoding and serialization: not modelled. A missing `Jwt:Key` setting throwing an exception is not modelled either.
- Bearer-token validation of incoming requests (lifetime, signature): the caller's identity is an input to `UsuariosController.Handle`.
- Data-annotation validation, and the automatic 400 that `[ApiController]` returns before an action runs: both are the `modelValid` input. `Register` and `Login` are modelled as their action code reads, with no model-state check.
- Null request bodies and null strings reaching the controllers: every controller argument is a value.
- The service constructor's null-repository check: dependency injection always supplies a repository.
- Exception messages: a failure body is the abstract `Message`.
- `Program.cs`, the Swagger operation filter, the migration's seed rows and the EF configuration: only the primary-key, unique-email and column-width facts are used.
- `RegisterDto.cs` is not part of this model. Its fields are taken to be `Nome`, `Email` and `Senha`, mapped by name.
- `Tokens.IntToString`: the invariant-culture form of `int.ToString()`. Culture-specific negative signs are not modelled.

## Findings

| source | as written | input that shows it | evidently intended | confidence | as-written member | corrected member |
|---|---|---|---|---|---|---|
| rest-api-dotnet-template/Repositories/Repository.cs:53 | the offset `(page - 1) * pageSize` is computed in 32-bit `int` and wraps around | page 1073741825, page size 4, one stored user: the offset 2^32 wraps to 0, and the first user comes back under `CurrentPage` 1073741825 (other large pages wrap to a negative offset, which PostgreSQL rejects, giving 500) | a page past the end is empty | high; not executed | `Repository.GetAllAsWritten` (counterexample `Repository.PageOverflowReturnsFirstPage`) | `Repository.GetAll`, the reference the layers above are compared with: `Repository.GetAllAsWrittenInRange`, `Service.GetAllIsIntendedInRange` and `BaseController.ListingIsIntendedPage` show the code agrees with it whenever the offset fits; the service and controller model the code as written, and `EndToEnd.PageOverflowAtTheEndpoint` shows the discrepancy at the endpoint |
