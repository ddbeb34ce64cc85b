/** The generic `Service<TEntity, TContext>` at `Usuario`: argument
    validation in front of the repository, existence checks before update
    and delete, and the re-wrapping of what the repository throws. */
module Service {
  import opened Outcomes
  import opened Entities
  import opened Store
  import Int32
  import Repository

  /** `ValidateId`: ids must be positive. */
  function ValidateId(id: int): (c: Check)
    ensures c.Fail? <==> id <= 0
    ensures c.Fail? ==> c.fault == Argument
  {
    if id <= 0 then Fail(Argument) else Pass
  }

  /** `ValidateEntity`: a null entity throws `ArgumentNullException`, which
      is an `ArgumentException`. */
  function ValidateEntity(e: Option<Usuario>): (c: Check)
    ensures c.Fail? <==> e.None?
    ensures c.Fail? ==> c.fault == Argument
  {
    if e.None? then Fail(Argument) else Pass
  }

  /** `ValidatePaginationParameters`: page and page size start at 1. */
  function ValidatePaginationParameters(page: int, pageSize: int): (c: Check)
    ensures c.Fail? <==> page < 1 || pageSize < 1
    ensures c.Fail? ==> c.fault == Argument
  {
    if page < 1 then Fail(Argument)
    else if pageSize < 1 then Fail(Argument)
    else Pass
  }

  /** `ValidateFieldsToUpdate`: the dictionary must be present and non-empty. */
  function ValidateFieldsToUpdate<V>(fields: Option<map<string, V>>): (c: Check)
    ensures c.Fail? <==> fields.None? || |fields.value| == 0
    ensures c.Fail? ==> c.fault == Argument
  {
    if fields.None? || |fields.value| == 0 then Fail(Argument) else Pass
  }

  /** `GetAllAsync`: bad paging is rejected before the repository is called;
      otherwise the repository's page as the code computes it, with the
      offset in 32-bit arithmetic, and a store failure or an offset that
      wrapped negative as a plain `Exception`. */
  function GetAll(db: Db, page: int, pageSize: int, filter: Usuario -> bool): (r: Result<PagedResult>)
    ensures page < 1 || pageSize < 1 ==> r == Err(Argument)
    ensures page >= 1 && pageSize >= 1 ==>
              && (r.Ok? <==> db.online && Repository.SkipCount(page, pageSize) >= 0)
              && (r.Err? ==> r.fault == Generic)
    ensures r.Ok? ==> r == Repository.GetAllAsWritten(db, page, pageSize, filter)
  {
    match ValidatePaginationParameters(page, pageSize)
    case Fail(f) => Err(f)
    case Pass => Wrapped(Repository.GetAllAsWritten(db, page, pageSize, filter))
  }

  /** While the offset fits in an `int`, the service returns the intended
      page, and it succeeds exactly when the store is up. */
  lemma GetAllIsIntendedInRange(db: Db, page: int, pageSize: int, filter: Usuario -> bool)
    requires page >= 1 && pageSize >= 1 && Int32.InRange((page - 1) * pageSize)
    ensures GetAll(db, page, pageSize, filter).Ok? <==> db.online
    ensures db.online ==> GetAll(db, page, pageSize, filter) == Repository.GetAll(db, page, pageSize, filter)
  {
    Int32.FactorInRange(page - 1, pageSize);
    Repository.GetAllAsWrittenInRange(db, page, pageSize, filter);
  }

  /** `GetByIdAsync`: a non-positive id is `ArgumentException`; otherwise
      exactly what the repository yields, because `KeyNotFoundException`
      is re-thrown as itself and everything else the repository can throw is
      already a plain `Exception`. */
  function GetById(db: Db, id: int, filter: Usuario -> bool): (r: Result<Usuario>)
    ensures id <= 0 ==> r == Err(Argument)
    ensures id > 0 ==> r == Repository.GetById(db, id, filter)
  {
    match ValidateId(id)
    case Fail(f) => Err(f)
    case Pass => WrappedKeepingKeyNotFound(Repository.GetById(db, id, filter))
  }

  /** `AddAsync`: a null entity is `ArgumentNullException`; otherwise the
      repository insert, any failure of which is a plain `Exception`. */
  function Add(db: Db, e: Option<Usuario>): (r: Result<Repository.Saved>)
    ensures e.None? ==> r == Err(Argument)
    ensures e.Some? ==> r == Repository.Add(db, e.value)
  {
    match ValidateEntity(e)
    case Fail(f) => Err(f)
    case Pass => Wrapped(Repository.Add(db, e.value))
  }

  /** `UpdateAsync`: a null entity is `ArgumentNullException`. The id is not
      validated: the repository answers `false` for a non-positive id, and
      the `KeyNotFoundException` thrown for a missing row is caught by the
      same `try` and re-thrown as a plain `Exception`, so callers never see
      `KeyNotFoundException`. */
  function Update(db: Db, e: Option<Usuario>): (r: Result<Db>)
    ensures e.None? ==> r == Err(Argument)
    ensures e.Some? && r.Err? ==> r.fault == Generic
    ensures e.Some? ==> (r.Ok? <==> Repository.Exists(db, e.value.id) == Ok(true) && Repository.Update(db, e.value).Ok?)
    ensures r.Ok? ==> e.Some? && e.value.id > 0 && e.value.id in ById(db.rows) && r == Repository.Update(db, e.value)
  {
    match ValidateEntity(e)
    case Fail(f) => Err(f)
    case Pass =>
      Wrapped(
        match Repository.Exists(db, e.value.id)
        case Err(f) => Err(f)
        case Ok(found) => if found then Repository.Update(db, e.value) else Err(KeyNotFound))
  }

  /** `DeleteAsync`: a non-positive id is `ArgumentException`; a missing row
      throws `KeyNotFoundException` inside the `try`, which re-throws it as a
      plain `Exception`; a present row is deleted. */
  function Delete(db: Db, id: int): (r: Result<Db>)
    ensures id <= 0 ==> r == Err(Argument)
    ensures id > 0 && r.Err? ==> r.fault == Generic
    ensures id > 0 ==> (r.Ok? <==> db.online && id in ById(db.rows))
    ensures r.Ok? ==> r == Repository.Delete(db, id)
  {
    match ValidateId(id)
    case Fail(f) => Err(f)
    case Pass =>
      Wrapped(
        match Repository.Exists(db, id)
        case Err(f) => Err(f)
        case Ok(found) => if found then Repository.Delete(db, id) else Err(KeyNotFound))
  }

  /** `ExistsAsync`: unlike the repository, which answers `false`, a
      non-positive id is rejected with `ArgumentException`. */
  function Exists(db: Db, id: int): (r: Result<bool>)
    ensures id <= 0 ==> r == Err(Argument)
    ensures id > 0 ==> (r.Ok? <==> db.online) && (r.Err? ==> r.fault == Generic)
    ensures r.Ok? ==> (r.value <==> id in ById(db.rows))
  {
    match ValidateId(id)
    case Fail(f) => Err(f)
    case Pass => Wrapped(Repository.Exists(db, id))
  }

  /** The two `ExistsAsync` disagree exactly on non-positive ids. */
  lemma ExistsDisagreesOnNonPositive(db: Db, id: int)
    ensures id <= 0 ==> Repository.Exists(db, id) == Ok(false) && Exists(db, id) == Err(Argument)
    ensures id > 0 ==> Repository.Exists(db, id) == Exists(db, id)
  {
  }
}
