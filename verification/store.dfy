/** The `Usuarios` table behind `DbSet<Usuario>`, as a sequence of rows in the
    order an unordered query returns them, with the key view `ById` and the
    two constraints the schema declares: the primary key on `Id` and the
    unique index on `Email`. */
module Store {
  import opened Outcomes
  import opened Entities

  /** The table's rows, and whether the database answers at all; when it
      does not, every query and every save throws. */
  datatype Db = Db(rows: seq<Usuario>, online: bool)

  function Ids(rows: seq<Usuario>): set<int> {
    set u | u in rows :: u.id
  }

  function Emails(rows: seq<Usuario>): set<string> {
    set u | u in rows :: u.email
  }

  /** The primary key `PK_Usuarios`: no two rows share an `Id`. */
  predicate UniqueIds(rows: seq<Usuario>) {
    forall i, j :: 0 <= i < |rows| && 0 <= j < |rows| && rows[i].id == rows[j].id ==> i == j
  }

  /** The unique index `IX_Usuarios_Email`: no two rows share an `Email`. */
  predicate UniqueEmails(rows: seq<Usuario>) {
    forall i, j :: 0 <= i < |rows| && 0 <= j < |rows| && rows[i].email == rows[j].email ==> i == j
  }

  /** The states the database can be in. */
  predicate Valid(db: Db) {
    UniqueIds(db.rows) && UniqueEmails(db.rows)
  }

  /** `FirstOrDefault(p)` as an index: the position of the first element
      satisfying `p`, or `None` when there is none. */
  function First<T>(s: seq<T>, p: T -> bool): (r: Option<nat>)
    ensures r.Some? ==> r.value < |s| && p(s[r.value])
    ensures r.Some? ==> forall j :: 0 <= j < r.value ==> !p(s[j])
    ensures r.None? <==> forall j :: 0 <= j < |s| ==> !p(s[j])
  {
    if |s| == 0 then None
    else if p(s[0]) then Some(0)
    else
      match First(s[1..], p)
      case None => None
      case Some(i) => Some(i + 1)
  }

  /** `Where(p)`: the elements satisfying `p`, in their original order. */
  function Filter(s: seq<Usuario>, p: Usuario -> bool): (r: seq<Usuario>)
    ensures |r| <= |s|
    ensures forall x :: x in r <==> x in s && p(x)
  {
    if |s| == 0 then []
    else (if p(s[0]) then [s[0]] else []) + Filter(s[1..], p)
  }

  /** The stored entities a filter admits, as a set. */
  function Matching(rows: seq<Usuario>, p: Usuario -> bool): set<Usuario> {
    set u | u in rows && p(u)
  }

  /** `Skip(skip).Take(take)`: the elements at positions `skip`,
      `skip + 1`, … , at most `take` of them. */
  function Slice<T>(s: seq<T>, skip: nat, take: nat): (r: seq<T>)
    ensures |r| == if skip >= |s| then 0 else if take <= |s| - skip then take else |s| - skip
    ensures forall k :: 0 <= k < |r| ==> r[k] == s[skip + k]
  {
    if skip >= |s| then []
    else if take <= |s| - skip then s[skip..skip + take]
    else s[skip..]
  }

  /** The rows with position `i` taken out. */
  function Without(rows: seq<Usuario>, i: nat): (r: seq<Usuario>)
    requires i < |rows|
    ensures |r| == |rows| - 1
    ensures forall k :: 0 <= k < i ==> r[k] == rows[k]
    ensures forall k :: i <= k < |r| ==> r[k] == rows[k + 1]
  {
    rows[..i] + rows[i + 1..]
  }

  /** Position of the first row whose key is `id`. */
  function IndexOf(rows: seq<Usuario>, id: int): (i: nat)
    requires id in Ids(rows)
    ensures i < |rows| && rows[i].id == id
    ensures forall j :: 0 <= j < i ==> rows[j].id != id
  {
    if rows[0].id == id then 0
    else
      assert id in Ids(rows[1..]) by {
        var u :| u in rows && u.id == id;
        assert rows == [rows[0]] + rows[1..];
      }
      1 + IndexOf(rows[1..], id)
  }

  /** The table viewed as a finite map from key to row. */
  function ById(rows: seq<Usuario>): (m: map<int, Usuario>)
    ensures m.Keys == Ids(rows)
    ensures forall id :: id in m ==> m[id] in rows && m[id].id == id
  {
    map id | id in Ids(rows) :: rows[IndexOf(rows, id)]
  }

  /** A key the store may hand out for a new row: positive, and above every
      key already in the table. */
  function FreshId(rows: seq<Usuario>): (r: int)
    ensures r > 0
    ensures forall k :: 0 <= k < |rows| ==> rows[k].id < r
    ensures r !in Ids(rows)
  {
    if |rows| == 0 then 1
    else
      var rest := FreshId(rows[1..]);
      assert forall k :: 1 <= k < |rows| ==> rows[k] == rows[1..][k - 1];
      if rows[0].id < rest then rest else rows[0].id + 1
  }

  lemma IdOfRow(rows: seq<Usuario>, i: nat)
    requires i < |rows|
    ensures rows[i].id in Ids(rows)
    ensures rows[i].email in Emails(rows)
  {
    assert rows[i] in rows;
  }

  /** Under the primary key, each row is what the map view holds at its key. */
  lemma {:induction false} ByIdAt(rows: seq<Usuario>, i: nat)
    requires UniqueIds(rows)
    requires i < |rows|
    ensures rows[i].id in ById(rows) && ById(rows)[rows[i].id] == rows[i]
  {
    IdOfRow(rows, i);
    var j := IndexOf(rows, rows[i].id);
    assert ById(rows)[rows[i].id] == rows[j];
  }

  /** Two ways to see the map view: a map equals `ById(rows)` when it has the
      same keys and holds every row at that row's key. */
  lemma {:induction false} ByIdUnique(rows: seq<Usuario>, m: map<int, Usuario>)
    requires UniqueIds(rows)
    requires m.Keys == Ids(rows)
    requires forall i :: 0 <= i < |rows| ==> rows[i].id in m && m[rows[i].id] == rows[i]
    ensures ById(rows) == m
  {
    forall id | id in m
      ensures ById(rows)[id] == m[id]
    {
      var i := IndexOf(rows, id);
      ByIdAt(rows, i);
    }
  }

  /** Position `k` of a table with row `i` removed, as a position of the
      original table. */
  function Shifted(i: nat, k: nat): nat {
    if k < i then k else k + 1
  }

  lemma WithoutAt(rows: seq<Usuario>, i: nat, k: nat)
    requires i < |rows| && k < |rows| - 1
    ensures Shifted(i, k) < |rows| && Shifted(i, k) != i
    ensures Without(rows, i)[k] == rows[Shifted(i, k)]
  {
  }

  /** Removing a row keeps the primary key. */
  lemma {:induction false} UniqueIdsWithout(rows: seq<Usuario>, i: nat)
    requires UniqueIds(rows) && i < |rows|
    ensures UniqueIds(Without(rows, i))
  {
    var r := Without(rows, i);
    forall a, b | 0 <= a < |r| && 0 <= b < |r| && r[a].id == r[b].id
      ensures a == b
    {
      WithoutAt(rows, i, a);
      WithoutAt(rows, i, b);
    }
  }

  /** Removing a row removes its key, and only its key, from the key set. */
  lemma {:induction false} IdsWithout(rows: seq<Usuario>, i: nat)
    requires UniqueIds(rows) && i < |rows|
    ensures Ids(Without(rows, i)) == Ids(rows) - {rows[i].id}
  {
    var r := Without(rows, i);
    forall id | id in Ids(r)
      ensures id in Ids(rows) - {rows[i].id}
    {
      var k := IndexOf(r, id);
      WithoutAt(rows, i, k);
      IdOfRow(rows, Shifted(i, k));
    }
    forall id | id in Ids(rows) - {rows[i].id}
      ensures id in Ids(r)
    {
      var k' := IndexOf(rows, id);
      var k := if k' < i then k' else k' - 1;
      WithoutAt(rows, i, k);
      IdOfRow(r, k);
    }
  }

  /** Removing one row removes exactly its key from the map view. */
  lemma {:induction false} ByIdWithout(rows: seq<Usuario>, i: nat)
    requires UniqueIds(rows)
    requires i < |rows|
    ensures UniqueIds(Without(rows, i))
    ensures ById(Without(rows, i)) == ById(rows) - {rows[i].id}
  {
    var r := Without(rows, i);
    var m := ById(rows) - {rows[i].id};
    UniqueIdsWithout(rows, i);
    IdsWithout(rows, i);
    forall k | 0 <= k < |r|
      ensures r[k].id in m && m[r[k].id] == r[k]
    {
      WithoutAt(rows, i, k);
      ByIdAt(rows, Shifted(i, k));
    }
    ByIdUnique(r, m);
  }

  /** Replacing a row by one with the same key keeps the set of keys. */
  lemma {:induction false} IdsReplace(rows: seq<Usuario>, i: nat, e: Usuario)
    requires i < |rows| && rows[i].id == e.id
    ensures Ids(rows[i := e]) == Ids(rows)
    ensures UniqueIds(rows) ==> UniqueIds(rows[i := e])
  {
    var r := rows[i := e];
    forall id | id in Ids(r)
      ensures id in Ids(rows)
    {
      IdOfRow(rows, IndexOf(r, id));
    }
    forall id | id in Ids(rows)
      ensures id in Ids(r)
    {
      IdOfRow(r, IndexOf(rows, id));
    }
  }

  /** Replacing a row by one with the same key updates exactly that key. */
  lemma {:induction false} ByIdReplace(rows: seq<Usuario>, i: nat, e: Usuario)
    requires UniqueIds(rows)
    requires i < |rows| && rows[i].id == e.id
    ensures UniqueIds(rows[i := e])
    ensures ById(rows[i := e]) == ById(rows)[e.id := e]
  {
    var r := rows[i := e];
    var m := ById(rows)[e.id := e];
    IdsReplace(rows, i, e);
    IdOfRow(rows, i);
    assert m.Keys == Ids(r);
    forall k | 0 <= k < |r|
      ensures r[k].id in m && m[r[k].id] == r[k]
    {
      if k != i {
        ByIdAt(rows, k);
        assert rows[k].id != e.id;
      }
    }
    ByIdUnique(r, m);
  }

  /** Appending a row with a new key keeps the primary key and adds exactly
      that key to the key set. */
  lemma {:induction false} IdsAppend(rows: seq<Usuario>, e: Usuario)
    requires UniqueIds(rows)
    requires e.id !in Ids(rows)
    ensures UniqueIds(rows + [e])
    ensures Ids(rows + [e]) == Ids(rows) + {e.id}
  {
    var r := rows + [e];
    forall k | 0 <= k < |rows|
      ensures r[k] == rows[k] && rows[k].id != e.id
    {
      IdOfRow(rows, k);
    }
    forall id | id in Ids(r)
      ensures id in Ids(rows) + {e.id}
    {
      var k := IndexOf(r, id);
      if k < |rows| {
        IdOfRow(rows, k);
      }
    }
    forall id | id in Ids(rows)
      ensures id in Ids(r)
    {
      IdOfRow(r, IndexOf(rows, id));
    }
    IdOfRow(r, |rows|);
  }

  /** Appending a row with a new key adds exactly that key. */
  lemma {:induction false} ByIdAppend(rows: seq<Usuario>, e: Usuario)
    requires UniqueIds(rows)
    requires e.id !in Ids(rows)
    ensures UniqueIds(rows + [e])
    ensures ById(rows + [e]) == ById(rows)[e.id := e]
  {
    var r := rows + [e];
    var m := ById(rows)[e.id := e];
    IdsAppend(rows, e);
    forall k | 0 <= k < |r|
      ensures r[k].id in m && m[r[k].id] == r[k]
    {
      if k < |rows| {
        assert r[k] == rows[k];
        ByIdAt(rows, k);
        IdOfRow(rows, k);
      }
    }
    ByIdUnique(r, m);
  }

  /** Under the primary key, `Where(p).Count()` counts the stored entities
      `p` admits. */
  lemma {:induction false} FilterCount(rows: seq<Usuario>, p: Usuario -> bool)
    requires UniqueIds(rows)
    ensures |Filter(rows, p)| == |Matching(rows, p)|
  {
    if |rows| > 0 {
      var rest := rows[1..];
      assert UniqueIds(rest) by {
        forall a, b | 0 <= a < |rest| && 0 <= b < |rest| && rest[a].id == rest[b].id
          ensures a == b
        {
          assert rows[a + 1].id == rows[b + 1].id;
        }
      }
      FilterCount(rest, p);
      assert rows[0] !in rest by {
        forall k | 0 <= k < |rest|
          ensures rest[k].id != rows[0].id
        {
          assert rest[k] == rows[k + 1];
        }
      }
      assert rows == [rows[0]] + rest;
      if p(rows[0]) {
        assert Matching(rows, p) == Matching(rest, p) + {rows[0]};
      } else {
        assert Matching(rows, p) == Matching(rest, p);
      }
    }
  }
}
