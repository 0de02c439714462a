/** The user entity shared by the table, the session and the dashboard. */
module UserRecords {

  /** One row of the user list. The fields keep the Spanish names of the
      records the application ships with; `fechaCreacion` is an opaque date
      string (its formatting is presentation). */
  datatype UserRecord = UserRecord(
    id: int,
    nombreCompleto: string,
    nit: string,
    email: string,
    telefono: string,
    perfil: string,
    estado: string,
    fechaCreacion: string)

  /** No two records share an id. */
  predicate UniqueIds(users: seq<UserRecord>)
  {
    |users| == 0 ||
    ((forall j :: 1 <= j < |users| ==> users[j].id != users[0].id) && UniqueIds(users[1..]))
  }

  /** The recursive definition of `UniqueIds` agrees with the pairwise one. */
  lemma {:induction false} UniqueIdsPairwise(users: seq<UserRecord>)
    ensures UniqueIds(users) <==>
            forall i, j :: 0 <= i < j < |users| ==> users[i].id != users[j].id
  {
    if |users| > 0 {
      UniqueIdsPairwise(users[1..]);
      if forall i, j :: 0 <= i < j < |users| ==> users[i].id != users[j].id {
        forall i, j | 0 <= i < j < |users[1..]|
          ensures users[1..][i].id != users[1..][j].id
        {
          assert users[1..][i] == users[i + 1] && users[1..][j] == users[j + 1];
        }
      }
      if UniqueIds(users) {
        forall i, j | 0 <= i < j < |users|
          ensures users[i].id != users[j].id
        {
          if i > 0 {
            assert users[1..][i - 1] == users[i] && users[1..][j - 1] == users[j];
          }
        }
      }
    }
  }
}
