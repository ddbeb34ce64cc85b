/** The generic `Repository<TEntity, TContext>` instantiated at `Usuario`:
    each operation queries or saves the table and re-wraps what the store
    throws. */
module Repository {
  import opened Outcomes
  import opened Entities
  import opened Store
  import Int32

  /** The filter used when no `whereClause` is passed. */
  function AcceptAll(u: Usuario): bool {
    true
  }

  /** The row offset `(page - 1) * pageSize` as the unchecked 32-bit C#
      expression computes it. */
  function SkipCount(page: int, pageSize: int): (skip: int)
    ensures Int32.InRange(skip)
    ensures Int32.InRange(page - 1) && Int32.InRange((page - 1) * pageSize) ==> skip == (page - 1) * pageSize
  {
    Int32.Wrap(Int32.Wrap(page - 1) * pageSize)
  }

  /** `GetAllAsync` as written: filter, count, then `Skip(SkipCount).Take(pageSize)`.
      PostgreSQL rejects a negative OFFSET or LIMIT, so those fail. */
  function GetAllAsWritten(db: Db, page: int, pageSize: int, filter: Usuario -> bool): (r: Result<PagedResult>)
    ensures r.Err? ==> r.fault == Generic
    ensures r.Ok? <==> db.online && SkipCount(page, pageSize) >= 0 && pageSize >= 0
    ensures r.Ok? ==> r.value.currentPage == page && r.value.pageSize == pageSize
    ensures r.Ok? ==> r.value.totalCount == |Filter(db.rows, filter)|
    ensures r.Ok? ==> |r.value.items| <= pageSize
    ensures r.Ok? ==> forall k :: 0 <= k < |r.value.items| ==>
                        && SkipCount(page, pageSize) + k < |Filter(db.rows, filter)|
                        && r.value.items[k] == Filter(db.rows, filter)[SkipCount(page, pageSize) + k]
    ensures r.Ok? ==> |r.value.items| ==
                        var n := |Filter(db.rows, filter)|;
                        var skip := SkipCount(page, pageSize);
                        if skip >= n then 0 else if pageSize <= n - skip then pageSize else n - skip
  {
    if !db.online then Err(Generic)
    else
      var matches := Filter(db.rows, filter);
      var skip := SkipCount(page, pageSize);
      if skip < 0 || pageSize < 0 then Err(Generic)
      else Ok(PagedResult(Slice(matches, skip, pageSize), page, pageSize, |matches|))
  }

  /** `GetAllAsync` with the offset computed without wrap-around: the page
      holds the filtered rows from position `(page - 1) * pageSize` on, at
      most `pageSize` of them, and as many as remain up to that. */
  function GetAll(db: Db, page: int, pageSize: int, filter: Usuario -> bool): (r: Result<PagedResult>)
    ensures r.Err? ==> r.fault == Generic
    ensures r.Ok? <==> db.online && (page - 1) * pageSize >= 0 && pageSize >= 0
    ensures r.Ok? ==> r.value.currentPage == page && r.value.pageSize == pageSize
    ensures r.Ok? ==> r.value.totalCount == |Filter(db.rows, filter)|
    ensures r.Ok? ==> |r.value.items| <= pageSize
    ensures r.Ok? ==> forall k :: 0 <= k < |r.value.items| ==>
                        && (page - 1) * pageSize + k < |Filter(db.rows, filter)|
                        && r.value.items[k] == Filter(db.rows, filter)[(page - 1) * pageSize + k]
    ensures r.Ok? ==> |r.value.items| ==
                        var n := |Filter(db.rows, filter)|;
                        var skip := (page - 1) * pageSize;
                        if skip >= n then 0 else if pageSize <= n - skip then pageSize else n - skip
  {
    if !db.online then Err(Generic)
    else
      var matches := Filter(db.rows, filter);
      var skip := (page - 1) * pageSize;
      if skip < 0 || pageSize < 0 then Err(Generic)
      else Ok(PagedResult(Slice(matches, skip, pageSize), page, pageSize, |matches|))
  }

  /** Whenever the offset fits in 32 bits the code as written computes the
      intended page. */
  lemma GetAllAsWrittenInRange(db: Db, page: int, pageSize: int, filter: Usuario -> bool)
    requires Int32.InRange(page - 1) && Int32.InRange((page - 1) * pageSize)
    ensures GetAllAsWritten(db, page, pageSize, filter) == GetAll(db, page, pageSize, filter)
  {
  }

  /** With one stored user, asking for page 2^30 + 1 of size 4 returns that
      user: the offset 2^32 wraps to 0. The page is past the end and should
      be empty. */
  lemma PageOverflowReturnsFirstPage(u: Usuario)
    ensures GetAllAsWritten(Db([u], true), 0x4000_0001, 4, AcceptAll).Ok?
    ensures GetAllAsWritten(Db([u], true), 0x4000_0001, 4, AcceptAll).value.items == [u]
    ensures GetAll(Db([u], true), 0x4000_0001, 4, AcceptAll).Ok?
    ensures GetAll(Db([u], true), 0x4000_0001, 4, AcceptAll).value.items == []
  {
    assert SkipCount(0x4000_0001, 4) == 0;
    assert Filter([u], AcceptAll) == [u];
  }

  /** Whatever the page, `TotalCount` is the number of stored users the
      filter admits. */
  lemma {:induction false} TotalCountIsMatchingCount(db: Db, page: int, pageSize: int, filter: Usuario -> bool)
    requires Valid(db)
    requires GetAll(db, page, pageSize, filter).Ok?
    ensures GetAll(db, page, pageSize, filter).value.totalCount == |Matching(db.rows, filter)|
  {
    FilterCount(db.rows, filter);
  }

  /** Position `j` lies on page `j / size + 1`, at offset `j % size` from
      that page's first position. */
  lemma {:induction false} PositionOnPage(j: nat, size: int)
    requires size >= 1
    ensures 0 <= (j / size + 1 - 1) * size
    ensures (j / size + 1 - 1) * size + j % size == j
    ensures 0 <= j % size < size
  {
    var q := j / size;
    assert q * size + j % size == j && 0 <= j % size < size;
    assert q >= 0;
    NonNegativeProduct(q, size);
    assert q + 1 - 1 == q;
  }

  lemma {:induction false} NonNegativeProduct(a: int, b: int)
    requires a >= 0 && b >= 1
    ensures a * b >= 0
  {
    assert a * b == a + a * (b - 1);
  }

  /** An in-bounds position past a page's offset, within the page size, is
      on that page. */
  lemma ItemOnPage(db: Db, page: int, pageSize: int, filter: Usuario -> bool, rem: int)
    requires db.online && page >= 1 && pageSize >= 1
    requires 0 <= (page - 1) * pageSize && 0 <= rem < pageSize
    requires (page - 1) * pageSize + rem < |Filter(db.rows, filter)|
    ensures GetAll(db, page, pageSize, filter).Ok?
    ensures rem < |GetAll(db, page, pageSize, filter).value.items|
    ensures GetAll(db, page, pageSize, filter).value.items[rem] == Filter(db.rows, filter)[(page - 1) * pageSize + rem]
  {
  }

  /** Pages of one size partition the filtered rows: the row at position `j`
      is item `j % pageSize` of page `j / pageSize + 1`. */
  lemma {:induction false} EveryMatchOnItsPage(db: Db, pageSize: int, filter: Usuario -> bool, j: nat)
    requires db.online && pageSize >= 1
    requires j < |Filter(db.rows, filter)|
    ensures GetAll(db, j / pageSize + 1, pageSize, filter).Ok?
    ensures j % pageSize < |GetAll(db, j / pageSize + 1, pageSize, filter).value.items|
    ensures GetAll(db, j / pageSize + 1, pageSize, filter).value.items[j % pageSize] == Filter(db.rows, filter)[j]
  {
    PositionOnPage(j, pageSize);
    ItemOnPage(db, j / pageSize + 1, pageSize, filter, j % pageSize);
  }

  /** `GetByIdAsync`: a non-positive id is rejected before the store is
      touched; otherwise the first row the filter admits with that key, or
      `KeyNotFoundException` (kept as such by the catch); a store failure
      becomes a plain `Exception`. */
  function GetById(db: Db, id: int, filter: Usuario -> bool): (r: Result<Usuario>)
    ensures id <= 0 ==> r == Err(Argument)
    ensures id > 0 && !db.online ==> r == Err(Generic)
    ensures r.Ok? ==> r.value in db.rows && r.value.id == id && filter(r.value)
    ensures r.Ok? <==>
              id > 0 && db.online && exists k :: 0 <= k < |db.rows| && filter(db.rows[k]) && db.rows[k].id == id
    ensures r.Ok? ==> exists i :: 0 <= i < |db.rows| && db.rows[i] == r.value &&
                        forall j :: 0 <= j < i ==> !(filter(db.rows[j]) && db.rows[j].id == id)
    ensures r == Err(KeyNotFound) <==>
              id > 0 && db.online && forall k :: 0 <= k < |db.rows| ==> !(filter(db.rows[k]) && db.rows[k].id == id)
  {
    if id <= 0 then Err(Argument)
    else if !db.online then Err(Generic)
    else
      WrappedKeepingKeyNotFound(
        match First(db.rows, (u: Usuario) => filter(u) && u.id == id)
        case Some(i) => Ok(db.rows[i])
        case None => Err(KeyNotFound))
  }

  /** Without a filter, a found row is the one the map view holds at `id`. */
  lemma {:induction false} GetByIdIsMapLookup(db: Db, id: int)
    requires Valid(db) && id > 0 && db.online
    ensures GetById(db, id, AcceptAll).Ok? <==> id in ById(db.rows)
    ensures GetById(db, id, AcceptAll).Ok? ==> GetById(db, id, AcceptAll).value == ById(db.rows)[id]
  {
    var r := GetById(db, id, AcceptAll);
    if id in ById(db.rows) {
      var k := IndexOf(db.rows, id);
      ByIdAt(db.rows, k);
    }
    if r.Ok? {
      var k :| 0 <= k < |db.rows| && db.rows[k] == r.value;
      ByIdAt(db.rows, k);
    }
  }

  /** `ExistsAsync`: `false` for a non-positive id without touching the
      store; otherwise whether some row has that key. */
  function Exists(db: Db, id: int): (r: Result<bool>)
    ensures id <= 0 ==> r == Ok(false)
    ensures id > 0 ==> (r.Ok? <==> db.online)
    ensures r.Err? ==> r.fault == Generic
    ensures r.Ok? && id > 0 ==> (r.value <==> exists k :: 0 <= k < |db.rows| && db.rows[k].id == id)
    ensures r.Ok? ==> (r.value <==> id > 0 && id in ById(db.rows))
  {
    if id <= 0 then Ok(false)
    else if !db.online then Err(Generic)
    else
      if id in Ids(db.rows) then
        assert db.rows[IndexOf(db.rows, id)].id == id;
        Ok(true)
      else
        assert forall k :: 0 <= k < |db.rows| ==> db.rows[k].id != id by {
          forall k | 0 <= k < |db.rows| ensures db.rows[k].id != id {
            IdOfRow(db.rows, k);
          }
        }
        Ok(false)
  }

  /** An entity and the table after it was saved. */
  datatype Saved = Saved(db: Db, entity: Usuario)

  /** Whether the store accepts `e` as a new row: a zero key is generated,
      any other key is inserted as given, and the primary key, the unique
      email index and the column widths must hold afterwards. */
  predicate Insertable(rows: seq<Usuario>, e: Usuario) {
    && FitsColumns(e)
    && e.email !in Emails(rows)
    && (if e.id == 0 then Int32.InRange(FreshId(rows)) else e.id !in Ids(rows))
  }

  /** `AddAsync` followed by `SaveChangesAsync`: the row is appended with its
      key filled in; any failure becomes a plain `Exception`. */
  function Add(db: Db, e: Usuario): (r: Result<Saved>)
    ensures r.Err? ==> r.fault == Generic
    ensures r.Ok? <==> db.online && Insertable(db.rows, e)
    ensures r.Ok? ==> r.value.db == db.(rows := db.rows + [r.value.entity])
    ensures r.Ok? ==> r.value.entity == e.(id := r.value.entity.id)
    ensures r.Ok? ==> r.value.entity.id != 0 && r.value.entity.id !in Ids(db.rows)
    ensures r.Ok? && e.id != 0 ==> r.value.entity.id == e.id
  {
    if !db.online || !Insertable(db.rows, e) then Err(Generic)
    else
      var saved := if e.id == 0 then e.(id := FreshId(db.rows)) else e;
      Ok(Saved(db.(rows := db.rows + [saved]), saved))
  }

  /** A successful insert keeps both constraints and adds exactly one key to
      the map view. */
  lemma {:induction false} AddInsertsOneKey(db: Db, e: Usuario)
    requires Valid(db)
    requires Add(db, e).Ok?
    ensures Valid(Add(db, e).value.db)
    ensures var s := Add(db, e).value; ById(s.db.rows) == ById(db.rows)[s.entity.id := s.entity]
  {
    var s := Add(db, e).value;
    ByIdAppend(db.rows, s.entity);
    forall k | 0 <= k < |db.rows|
      ensures db.rows[k].email != s.entity.email
    {
      IdOfRow(db.rows, k);
    }
  }

  /** Whether `e` may replace the row holding its key without breaking the
      unique email index or the column widths. */
  predicate Replaceable(rows: seq<Usuario>, e: Usuario)
    requires e.id in Ids(rows)
  {
    FitsColumns(e) && e.email !in Emails(Without(rows, IndexOf(rows, e.id)))
  }

  /** `Update` followed by `SaveChangesAsync`. An entity whose key is 0 is
      taken as new and inserted; a key no row holds updates nothing and the
      save fails; otherwise the row with that key is replaced in place. Any
      failure becomes a plain `Exception`. */
  function Update(db: Db, e: Usuario): (r: Result<Db>)
    ensures r.Err? ==> r.fault == Generic
    ensures e.id != 0 ==> (r.Ok? <==> db.online && e.id in Ids(db.rows) && Replaceable(db.rows, e))
    ensures e.id != 0 && r.Ok? ==> |r.value.rows| == |db.rows| && e in r.value.rows
    ensures r.Ok? ==> r.value.online
  {
    if e.id == 0 then
      match Add(db, e)
      case Ok(s) => Ok(s.db)
      case Err(f) => Err(f)
    else if !db.online || e.id !in Ids(db.rows) || !Replaceable(db.rows, e) then Err(Generic)
    else
      var i := IndexOf(db.rows, e.id);
      assert db.rows[i := e][i] == e;
      Ok(db.(rows := db.rows[i := e]))
  }

  /** An update of a stored key keeps both constraints and changes the map
      view at that key only. */
  lemma {:induction false} UpdateReplacesOneKey(db: Db, e: Usuario)
    requires Valid(db)
    requires e.id != 0 && Update(db, e).Ok?
    ensures Valid(Update(db, e).value)
    ensures ById(Update(db, e).value.rows) == ById(db.rows)[e.id := e]
  {
    var i := IndexOf(db.rows, e.id);
    ByIdReplace(db.rows, i, e);
    var r := db.rows[i := e];
    var w := Without(db.rows, i);
    forall k | 0 <= k < |db.rows| && k != i
      ensures db.rows[k].email != e.email
    {
      var k' := if k < i then k else k - 1;
      assert w[k'] == db.rows[k];
      IdOfRow(w, k');
    }
  }

  /** `DeleteAsync`: looks the row up with `GetByIdAsync`, removes it and
      saves; every failure, `ArgumentException` and `KeyNotFoundException`
      included, becomes a plain `Exception`. */
  function Delete(db: Db, id: int): (r: Result<Db>)
    ensures r.Err? ==> r.fault == Generic
    ensures r.Ok? <==> id > 0 && db.online && id in Ids(db.rows)
    ensures r.Ok? ==> |r.value.rows| == |db.rows| - 1 && r.value.online
  {
    Wrapped(
      match GetById(db, id, AcceptAll)
      case Err(f) => Err(f)
      case Ok(u) =>
        IdOfRow(db.rows, IndexOf(db.rows, id));
        Ok(db.(rows := Without(db.rows, IndexOf(db.rows, id)))))
  }

  /** Deleting a stored key keeps both constraints and removes exactly that
      key from the map view. */
  lemma {:induction false} DeleteRemovesOneKey(db: Db, id: int)
    requires Valid(db)
    requires Delete(db, id).Ok?
    ensures Valid(Delete(db, id).value)
    ensures ById(Delete(db, id).value.rows) == ById(db.rows) - {id}
  {
    var i := IndexOf(db.rows, id);
    ByIdWithout(db.rows, i);
    var r := Without(db.rows, i);
    forall a, b | 0 <= a < |r| && 0 <= b < |r| && r[a].email == r[b].email
      ensures a == b
    {
      WithoutAt(db.rows, i, a);
      WithoutAt(db.rows, i, b);
    }
  }
}
