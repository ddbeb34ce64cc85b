/** `BaseController<Usuario, …>`: the five CRUD actions. Each action returns
    400 when the bound model is invalid, without calling the service, and
    otherwise maps the service's outcome to an HTTP status through its
    `catch` clauses. A reply carries the status, a body, and the table as
    the request left it. */
module BaseController {
  import opened Outcomes
  import opened Entities
  import opened Store
  import opened Tokens
  import Int32
  import Repository
  import Service

  const StatusOk: int := 200
  const StatusCreated: int := 201
  const StatusNoContent: int := 204
  const StatusBadRequest: int := 400
  const StatusUnauthorized: int := 401
  const StatusForbidden: int := 403
  const StatusNotFound: int := 404
  const StatusInternalServerError: int := 500

  /** Response bodies: a page, an entity, a token, the `{ message }` of an
      error, the model-state errors, or nothing. */
  datatype Body = PageBody(page: PagedResult) | EntityBody(user: Usuario) | TokenBody(token: Jwt)
                | Message | ModelStateErrors | NoBody

  datatype Reply = Reply(status: int, body: Body, db: Db)

  /** The `catch` clauses of an action: `ArgumentException` gives 400,
      `KeyNotFoundException` 404 if the action has that clause, and every
      other exception 500. */
  function StatusOf(f: Fault, catchesKeyNotFound: bool): (s: int)
    ensures s == StatusBadRequest || s == StatusNotFound || s == StatusInternalServerError
    ensures s == StatusBadRequest <==> f == Argument
    ensures s == StatusNotFound <==> f == KeyNotFound && catchesKeyNotFound
  {
    match f
    case Argument => StatusBadRequest
    case KeyNotFound => if catchesKeyNotFound then StatusNotFound else StatusInternalServerError
    case Generic => StatusInternalServerError
  }

  /** The reply of a failed action: the mapped status, the exception's
      message, and the table untouched. */
  function Failure(f: Fault, catchesKeyNotFound: bool, db: Db): Reply {
    Reply(StatusOf(f, catchesKeyNotFound), Message, db)
  }

  /** `GET /api/usuarios?page&pageSize`. It has no 404 clause. A page whose
      32-bit offset wraps negative is rejected by the store, hence 500. */
  function GetAll(db: Db, modelValid: bool, page: int, pageSize: int): (r: Reply)
    ensures r.db == db
    ensures r.status == StatusOk || r.status == StatusBadRequest || r.status == StatusInternalServerError
    ensures r.status == StatusBadRequest <==> !modelValid || page < 1 || pageSize < 1
    ensures r.status == StatusOk <==>
              modelValid && page >= 1 && pageSize >= 1 && db.online && Repository.SkipCount(page, pageSize) >= 0
    ensures r.status == StatusOk ==>
              r.body == PageBody(Repository.GetAllAsWritten(db, page, pageSize, Repository.AcceptAll).value)
  {
    if !modelValid then Reply(StatusBadRequest, ModelStateErrors, db)
    else
      match Service.GetAll(db, page, pageSize, Repository.AcceptAll)
      case Ok(p) => Reply(StatusOk, PageBody(p), db)
      case Err(f) => Failure(f, false, db)
  }

  /** While the offset fits in an `int`, a valid listing request on a
      reachable store is 200 with the intended page. */
  lemma ListingIsIntendedPage(db: Db, page: int, pageSize: int)
    requires db.online && page >= 1 && pageSize >= 1 && Int32.InRange((page - 1) * pageSize)
    ensures Repository.GetAll(db, page, pageSize, Repository.AcceptAll).Ok?
    ensures GetAll(db, true, page, pageSize) ==
              Reply(StatusOk, PageBody(Repository.GetAll(db, page, pageSize, Repository.AcceptAll).value), db)
  {
    Service.GetAllIsIntendedInRange(db, page, pageSize, Repository.AcceptAll);
    var p := Service.GetAll(db, page, pageSize, Repository.AcceptAll);
    assert p.Ok? && p == Repository.GetAll(db, page, pageSize, Repository.AcceptAll);
    assert GetAll(db, true, page, pageSize) == Reply(StatusOk, PageBody(p.value), db);
  }

  /** `GET /api/usuarios/{id}`. */
  function GetById(db: Db, modelValid: bool, id: int): (r: Reply)
    ensures r.db == db
    ensures r.status == StatusBadRequest <==> !modelValid || id <= 0
    ensures r.status == StatusNotFound <==>
              modelValid && id > 0 && db.online && forall k :: 0 <= k < |db.rows| ==> db.rows[k].id != id
    ensures r.status == StatusInternalServerError <==> modelValid && id > 0 && !db.online
    ensures r.status == StatusOk ==> r.body.EntityBody? && r.body.user in db.rows && r.body.user.id == id
    ensures r.status in {StatusOk, StatusBadRequest, StatusNotFound, StatusInternalServerError}
  {
    if !modelValid then Reply(StatusBadRequest, ModelStateErrors, db)
    else
      match Service.GetById(db, id, Repository.AcceptAll)
      case Ok(u) => Reply(StatusOk, EntityBody(u), db)
      case Err(f) => Failure(f, true, db)
  }

  /** `POST /api/usuarios`: 201 with the saved entity, its key filled in. It
      has no 404 clause. */
  function Create(db: Db, modelValid: bool, entity: Usuario): (r: Reply)
    ensures r.status in {StatusCreated, StatusBadRequest, StatusInternalServerError}
    ensures r.status == StatusBadRequest <==> !modelValid
    ensures r.status == StatusCreated <==> modelValid && db.online && Repository.Insertable(db.rows, entity)
    ensures r.status != StatusCreated ==> r.db == db
    ensures r.status == StatusCreated ==>
              && r.body.EntityBody?
              && r.body.user == entity.(id := r.body.user.id)
              && r.db == db.(rows := db.rows + [r.body.user])
  {
    if !modelValid then Reply(StatusBadRequest, ModelStateErrors, db)
    else
      match Service.Add(db, Some(entity))
      case Ok(s) => Reply(StatusCreated, EntityBody(s.entity), s.db)
      case Err(f) => Failure(f, false, db)
  }

  /** `PUT /api/usuarios/{id}`: the route's id overwrites the body's. The
      service never lets `KeyNotFoundException` escape and never rejects the
      id, so the 404 clause cannot fire and a missing or non-positive id
      yields 500. */
  function Update(db: Db, modelValid: bool, id: int, entity: Usuario): (r: Reply)
    ensures r.status in {StatusOk, StatusBadRequest, StatusInternalServerError}
    ensures r.status == StatusBadRequest <==> !modelValid
    ensures r.status != StatusOk ==> r.db == db
    ensures r.status == StatusOk <==>
              modelValid && id > 0 && db.online && id in ById(db.rows) && Repository.Update(db, entity.(id := id)).Ok?
    ensures r.status == StatusOk ==>
              r.body == EntityBody(entity.(id := id)) && r.db == Repository.Update(db, entity.(id := id)).value
  {
    if !modelValid then Reply(StatusBadRequest, ModelStateErrors, db)
    else
      var e := entity.(id := id);
      match Service.Update(db, Some(e))
      case Ok(db') => Reply(StatusOk, EntityBody(e), db')
      case Err(f) => Failure(f, true, db)
  }

  /** `DELETE /api/usuarios/{id}`: 204 on success. A missing id yields 500,
      never 404. */
  function Delete(db: Db, modelValid: bool, id: int): (r: Reply)
    ensures r.status in {StatusNoContent, StatusBadRequest, StatusInternalServerError}
    ensures r.status == StatusBadRequest <==> !modelValid || id <= 0
    ensures r.status != StatusNoContent ==> r.db == db
    ensures r.status == StatusNoContent <==> modelValid && id > 0 && db.online && id in ById(db.rows)
    ensures r.status == StatusNoContent ==> r.body == NoBody && r.db == Repository.Delete(db, id).value
  {
    if !modelValid then Reply(StatusBadRequest, ModelStateErrors, db)
    else
      match Service.Delete(db, id)
      case Ok(db') => Reply(StatusNoContent, NoBody, db')
      case Err(f) => Failure(f, true, db)
  }

  /** Any id in the body of a `PUT` is ignored. */
  lemma UpdateIgnoresBodyId(db: Db, modelValid: bool, id: int, entity: Usuario, bodyId: int)
    ensures Update(db, modelValid, id, entity.(id := bodyId)) == Update(db, modelValid, id, entity)
  {
    assert entity.(id := bodyId).(id := id) == entity.(id := id);
  }
}
