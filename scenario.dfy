/** A client of the model: the users-table usage the repository's tests
    walk through, and a transaction that cannot be opened, proved from the contracts
    of the operations alone. */
module Scenario {
  import opened Results
  import opened Validation
  import opened Tables
  import opened Transactions
  import opened Database

  datatype User = User(id: nat, enName: string, password: string, status: int)

  /** `Updates` with a patch whose only non-zero field is Status. */
  function SetStatus(row: User, patch: User): User
  {
    row.(status := patch.status)
  }

  function Reverse<T>(s: seq<T>): seq<T>
  {
    if s == [] then [] else Reverse(s[1..]) + [s[0]]
  }

  /** ORDER BY "id desc" over rows stored in ascending id order. */
  function IdDesc(order: string, rows: seq<User>): seq<User>
  {
    if order == "id desc" then Reverse(rows) else rows
  }

  const Summer := User(1, "summer", "alden", 1)
  const Mingyu := User(2, "mingyu", "alden", 1)

  predicate All(u: User) { true }
  predicate IsSummer(u: User) { u.enName == "summer" }

  lemma UsersFacts()
    ensures Matching([Summer, Mingyu], All) == [Summer, Mingyu]
    ensures Reverse([Summer, Mingyu]) == [Mingyu, Summer]
    ensures Matching([Summer, Mingyu], IsSummer) == [Summer]
    ensures Matching([Summer.(status := 2), Mingyu], IsSummer) == [Summer.(status := 2)]
  {
    assert [Summer, Mingyu][1..] == [Mingyu] && [Mingyu][1..] == [];
    assert [Summer.(status := 2), Mingyu][1..] == [Mingyu];
    assert Reverse([Mingyu]) == [Mingyu];
  }

  /** CreateInBatches of two users, then page 1 of size 1 in "id desc"
      order: the count is 2 and the page holds the later user. */
  method InsertThenPage()
  {
    UsersFacts();
    var db := new DbOperation<User>(true, map[]);
    var batch := new Cell<seq<User>>([Summer, Mingyu]);
    var err := db.CreateInBatches("users", Pointer(batch), 2, Ok, Ok, Ok);
    assert db.tables["users"] == [Summer, Mingyu];

    var page := new Cell<seq<User>>([]);
    var count;
    count, err := db.QueryList("users", "id desc", 1, 1, Pointer(page), All, IdDesc, Ok, Ok);
    assert count == 2 && err.None?;
    assert page.value == [Mingyu];
  }

  /** UpdateRow setting Status 2 on the user named summer affects one row,
      and QueryRow with the same filter then reads Status 2. */
  method UpdateThenRead()
  {
    UsersFacts();
    var db := new DbOperation<User>(true, map["users" := [Summer, Mingyu]]);
    var patch := new Cell<User>(User(0, "", "", 2));
    var count, err := db.UpdateRow("users", Pointer(patch), IsSummer, SetStatus, Ok, Ok, Ok);
    assert count == 1 && err.None?;
    assert db.tables["users"] == [Summer.(status := 2), Mingyu];

    var row := new Cell<User>(User(0, "", "", 0));
    var found;
    found, err := db.QueryRow("users", Pointer(row), IsSummer, Ok);
    assert found && err.None? && row.value.status == 2;
  }

  /** A nil record is refused before anything reaches the server. */
  method NilIsRefused()
  {
    var db := new DbOperation<User>(true, map["users" := [Summer]]);
    var err := db.Create("users", Nil, Ok, Ok, Ok);
    assert err == Some(Text(ValueNullMsg));
    assert db.tables == map["users" := [Summer]] && db.trace == [];
  }

  /** When Begin fails, Create returns Begin's error, only Begin reaches
      the server, and the table is left as it was. */
  method BeginFailureIsReported()
  {
    var db := new DbOperation<User>(true, map["users" := [Summer]]);
    var cell := new Cell<User>(Mingyu);
    var lost := Fault("driver: bad connection");
    var err := db.Create("users", Pointer(cell), Fail(lost), Ok, Ok);
    assert err == Some(Driver(lost));
    assert db.trace == [Begin("users", false)];
    assert db.tables == map["users" := [Summer]];
  }
}
