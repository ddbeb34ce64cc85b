/** `UsuarioRepository`: the user-specific lookup by email. */
module UsuarioRepository {
  import opened Outcomes
  import opened Entities
  import opened Store

  /** `GetByEmailAsync`: the first row whose email equals the argument. It
      never returns null: no match throws `KeyNotFoundException`, and the
      single `catch (Exception)` re-throws that, like a store failure, as a
      plain `Exception`. */
  function GetByEmail(db: Db, email: string): (r: Result<Usuario>)
    ensures r.Err? ==> r.fault == Generic
    ensures r.Ok? <==> db.online && email in Emails(db.rows)
    ensures r.Ok? ==> exists i :: 0 <= i < |db.rows| && db.rows[i] == r.value &&
                        forall j :: 0 <= j < i ==> db.rows[j].email != email
    ensures r.Ok? ==> r.value.email == email
  {
    if !db.online then Err(Generic)
    else
      Wrapped(
        match First(db.rows, (u: Usuario) => u.email == email)
        case Some(i) =>
          IdOfRow(db.rows, i);
          Ok(db.rows[i])
        case None =>
          assert email !in Emails(db.rows) by {
            forall u | u in db.rows
              ensures u.email != email
            {
              var i :| 0 <= i < |db.rows| && db.rows[i] == u;
            }
          }
          Err(KeyNotFound))
  }

  /** Under the unique email index the first match is the only one. */
  lemma {:induction false} GetByEmailIsTheUser(db: Db, email: string, i: nat)
    requires Valid(db)
    requires i < |db.rows| && db.rows[i].email == email && db.online
    ensures GetByEmail(db, email) == Ok(db.rows[i])
  {
    IdOfRow(db.rows, i);
    var r := GetByEmail(db, email);
    var k :| 0 <= k < |db.rows| && db.rows[k] == r.value && forall j :: 0 <= j < k ==> db.rows[j].email != email;
  }
}
