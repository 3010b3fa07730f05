/** The user, role and permission tables the services read and write through their repositories.
    The user repository's source is not part of this model; its `FindByEmail`, `FindByID`, `Create` and
    `Update` are given gorm's meaning over the constraints internal/models/user.go declares. The role
    and permission repositories are the `First` and `Save` calls of role_repository.go and
    permission_repository.go. */
module Repositories {
  import opened Common
  import opened Models

  /** The lookups the repositories make. */
  datatype UserKey = ByEmail(email: string) | ById(id: Uuid)

  predicate Keyed(k: UserKey, u: UserRow)
  {
    match k
    case ByEmail(e) => u.email == e
    case ById(id) => u.id == id
  }

  /** The index of the first row the key selects, or |rows| when none does. */
  function Locate(rows: seq<UserRow>, k: UserKey): (i: nat)
    ensures i <= |rows| && (i < |rows| ==> Keyed(k, rows[i]))
    ensures forall j :: 0 <= j < i ==> !Keyed(k, rows[j])
  {
    if rows == [] then 0 else if Keyed(k, rows[0]) then 0 else 1 + Locate(rows[1..], k)
  }

  /** gorm `First`: the selected row, or record-not-found. */
  function Find(rows: seq<UserRow>, k: UserKey): (r: Result<UserRow>)
    ensures r.Ok? ==> r.value in rows && Keyed(k, r.value)
    ensures r.Err? ==> r == Err(RecordNotFound) && forall u :: u in rows ==> !Keyed(k, u)
  {
    var i := Locate(rows, k);
    if i < |rows| then Ok(rows[i]) else Err(RecordNotFound)
  }

  /** Another row already holds `u`'s email or username. */
  predicate TakenByOther(rows: seq<UserRow>, u: UserRow)
  {
    exists i :: 0 <= i < |rows| && rows[i].id != u.id && (rows[i].email == u.email || rows[i].username == u.username)
  }

  /** An INSERT of `u`: refused when a value is too long for its column or a key is taken. */
  function Insert(rows: seq<UserRow>, u: UserRow, secretWidth: nat): (r: Result<seq<UserRow>>)
    ensures r.Err? ==> r.error == ValueTooLong || r.error == DuplicateKey
    ensures r.Ok? ==> r.value == rows + [u]
  {
    if !FitsColumns(u, secretWidth) then Err(ValueTooLong)
    else if Locate(rows, ById(u.id)) < |rows| || TakenByOther(rows, u) then Err(DuplicateKey)
    else Ok(rows + [u])
  }

  /** gorm `Save(u)`: an UPDATE of the row with `u`'s id, or an INSERT when there is none. */
  function Save(rows: seq<UserRow>, u: UserRow, secretWidth: nat): (r: Result<seq<UserRow>>)
    ensures r.Err? ==> r.error == ValueTooLong || r.error == DuplicateKey
  {
    var i := Locate(rows, ById(u.id));
    if i == |rows| then Insert(rows, u, secretWidth)
    else if !FitsColumns(u, secretWidth) then Err(ValueTooLong)
    else if TakenByOther(rows, u) then Err(DuplicateKey)
    else Ok(rows[i := u])
  }

  /** Every row respects the unique indexes and the column widths. */
  ghost predicate ValidRows(rows: seq<UserRow>, secretWidth: nat)
  {
    UniqueUsers(rows) && forall u :: u in rows ==> FitsColumns(u, secretWidth)
  }

  class UserStore {
    /** The visible rows of the users table. */
    var rows: seq<UserRow>
    /** The width of the MFA secret column; user.go declares 32. */
    const secretWidth: nat

    ghost predicate Valid()
      reads this
    {
      ValidRows(rows, secretWidth)
    }

    constructor (secretWidth: nat)
      ensures rows == [] && this.secretWidth == secretWidth && Valid()
    {
      rows := [];
      this.secretWidth := secretWidth;
    }

    function FindByEmail(email: string): (r: Result<UserRow>)
      reads this
      ensures r.Ok? ==> r.value in rows && r.value.email == email
      ensures r.Err? ==> r == Err(RecordNotFound) && forall u :: u in rows ==> u.email != email
    {
      Find(rows, ByEmail(email))
    }

    function FindByID(id: Uuid): (r: Result<UserRow>)
      reads this
      ensures r.Ok? ==> r.value in rows && r.value.id == id
      ensures r.Err? ==> r == Err(RecordNotFound) && forall u :: u in rows ==> u.id != id
    {
      Find(rows, ById(id))
    }

    /** `Create(user)`: BeforeCreate and the column defaults, then an INSERT; `healthy` false stands for
        a database failure. Returns the row as stored. */
    method Create(u: UserRow, freshId: Uuid, healthy: bool) returns (r: Result<UserRow>)
      requires Valid()
      modifies this
      ensures Valid()
      ensures var n := BeforeCreateUser(u, freshId);
        if !healthy then r == Err(StoreFailure) && rows == old(rows)
        else match Insert(old(rows), n, secretWidth)
          case Err(e) => r == Err(e) && rows == old(rows)
          case Ok(after) => r == Ok(n) && rows == after
    {
      var n := BeforeCreateUser(u, freshId);
      if !healthy {
        return Err(StoreFailure);
      }
      match Insert(rows, n, secretWidth)
      case Err(e) =>
        r := Err(e);
      case Ok(after) =>
        InsertValid(rows, n, secretWidth);
        rows := after;
        r := Ok(n);
    }

    /** `Update(user)`, which is gorm `Save`. */
    method Update(u: UserRow, healthy: bool) returns (err: Option<Error>)
      requires Valid()
      modifies this
      ensures Valid()
      ensures Written(err, rows) == UpdateOutcome(old(rows), u, secretWidth, healthy)
    {
      var w := UpdateOutcome(rows, u, secretWidth, healthy);
      if w.error == None {
        SaveValid(rows, u, secretWidth);
      }
      err, rows := w.error, w.rows;
    }
  }

  /** What an `Update` returns and leaves in the table. */
  datatype Written = Written(error: Option<Error>, rows: seq<UserRow>)

  /** `Update(u)` on a table: a database failure (`healthy` false) or a refused Save leaves the table as
      it was; otherwise the table is the saved one. */
  function UpdateOutcome(rows: seq<UserRow>, u: UserRow, secretWidth: nat, healthy: bool): (w: Written)
    ensures w.error == None <==> healthy && Save(rows, u, secretWidth).Ok?
    ensures w.error == None ==> w.rows == Save(rows, u, secretWidth).value
    ensures w.error.Some? ==> w.rows == rows
  {
    if !healthy then Written(Some(StoreFailure), rows)
    else match Save(rows, u, secretWidth)
      case Err(e) => Written(Some(e), rows)
      case Ok(after) => Written(None, after)
  }

  /** A role or a permission table: rows with unique ids. */
  class RoleStore {
    var rows: seq<Role>

    constructor ()
      ensures rows == []
    {
      rows := [];
    }

    /** role_repository.go `FindByID` (permissions preloaded): the row with that id. */
    function FindByID(id: Uuid): (r: Result<Role>)
      reads this
      ensures r.Ok? ==> r.value in rows && r.value.id == id
      ensures r.Err? ==> r == Err(RecordNotFound) && forall x :: x in rows ==> x.id != id
    {
      FirstRole(rows, id)
    }

    /** role_repository.go `Update`, gorm `Save`: the row with the role's id is replaced, or the role is
        inserted when there is none. */
    method Update(role: Role, healthy: bool) returns (err: Option<Error>)
      modifies this
      ensures healthy ==> err == None && rows == SaveRole(old(rows), role)
      ensures !healthy ==> err == Some(StoreFailure) && rows == old(rows)
    {
      if !healthy {
        return Some(StoreFailure);
      }
      rows := SaveRole(rows, role);
      err := None;
    }
  }

  function FirstRole(rows: seq<Role>, id: Uuid): (r: Result<Role>)
    ensures r.Ok? ==> r.value in rows && r.value.id == id
    ensures r.Err? ==> r == Err(RecordNotFound) && forall x :: x in rows ==> x.id != id
  {
    if rows == [] then Err(RecordNotFound)
    else if rows[0].id == id then Ok(rows[0])
    else FirstRole(rows[1..], id)
  }

  /** `Save` on a role: the first row with its id is replaced, or the role is appended. */
  function SaveRole(rows: seq<Role>, role: Role): (r: seq<Role>)
    ensures FirstRole(r, role.id) == Ok(role)
    ensures forall x :: x in rows && x.id != role.id ==> x in r
    ensures forall x :: x in r ==> x == role || x in rows
  {
    if rows == [] then [role]
    else if rows[0].id == role.id then [role] + rows[1..]
    else [rows[0]] + SaveRole(rows[1..], role)
  }

  class PermissionStore {
    var rows: seq<Permission>

    constructor ()
      ensures rows == []
    {
      rows := [];
    }

    /** permission_repository.go `FindByID`: the row with that id. */
    function FindByID(id: Uuid): (r: Result<Permission>)
      reads this
      ensures r.Ok? ==> r.value in rows && r.value.id == id
      ensures r.Err? ==> r == Err(RecordNotFound) && forall x :: x in rows ==> x.id != id
    {
      FirstPermission(rows, id)
    }
  }

  function FirstPermission(rows: seq<Permission>, id: Uuid): (r: Result<Permission>)
    ensures r.Ok? ==> r.value in rows && r.value.id == id
    ensures r.Err? ==> r == Err(RecordNotFound) && forall x :: x in rows ==> x.id != id
  {
    if rows == [] then Err(RecordNotFound)
    else if rows[0].id == id then Ok(rows[0])
    else FirstPermission(rows[1..], id)
  }

  // ---------------------------------------------------------------------------------------------
  // Lemmas

  /** An accepted INSERT keeps every unique index and column width. */
  lemma InsertValid(rows: seq<UserRow>, u: UserRow, secretWidth: nat)
    requires ValidRows(rows, secretWidth) && Insert(rows, u, secretWidth).Ok?
    ensures ValidRows(Insert(rows, u, secretWidth).value, secretWidth)
  {
    var after := rows + [u];
    forall i, j | 0 <= i < j < |after|
      ensures after[i].id != after[j].id && after[i].email != after[j].email && after[i].username != after[j].username
    {
      if j == |rows| {
        assert after[i] == rows[i];
        assert rows[i].id != u.id;
      }
    }
  }

  /** An accepted Save keeps every unique index and column width. */
  lemma SaveValid(rows: seq<UserRow>, u: UserRow, secretWidth: nat)
    requires ValidRows(rows, secretWidth) && Save(rows, u, secretWidth).Ok?
    ensures ValidRows(Save(rows, u, secretWidth).value, secretWidth)
  {
    var i := Locate(rows, ById(u.id));
    if i == |rows| {
      InsertValid(rows, u, secretWidth);
    } else {
      var after := rows[i := u];
      forall a, b | 0 <= a < b < |after|
        ensures after[a].id != after[b].id && after[a].email != after[b].email && after[a].username != after[b].username
      {
        if a == i {
          assert after[b] == rows[b];
          assert rows[b].id != u.id by { assert rows[i].id == u.id; }
        } else if b == i {
          assert after[a] == rows[a];
          assert rows[a].id != u.id by { assert rows[i].id == u.id; }
        }
      }
      forall x | x in after ensures FitsColumns(x, secretWidth) {
        var k :| 0 <= k < |after| && after[k] == x;
        if k != i { assert x == rows[k]; }
      }
    }
  }

  /** After an accepted Save the row is found under its id, and it is the row saved. */
  lemma SaveThenFind(rows: seq<UserRow>, u: UserRow, secretWidth: nat)
    requires ValidRows(rows, secretWidth) && Save(rows, u, secretWidth).Ok?
    ensures Find(Save(rows, u, secretWidth).value, ById(u.id)) == Ok(u)
  {
    var after := Save(rows, u, secretWidth).value;
    SaveValid(rows, u, secretWidth);
    assert u in after by {
      var i := Locate(rows, ById(u.id));
      if i < |rows| { assert after[i] == u; } else { assert after[|rows|] == u; }
    }
    FindUniqueId(after, u);
  }

  /** Accepted Saves of other users leave a row where it was: only the saved id changes. */
  lemma SaveKeepsOthers(rows: seq<UserRow>, u: UserRow, secretWidth: nat, x: UserRow)
    requires Save(rows, u, secretWidth).Ok? && x.id != u.id
    ensures x in Save(rows, u, secretWidth).value <==> x in rows
  {
    var i := Locate(rows, ById(u.id));
    if i < |rows| {
      var after := rows[i := u];
      if x in rows {
        var k :| 0 <= k < |rows| && rows[k] == x;
        assert k != i;
        assert after[k] == x;
      }
      if x in after {
        var k :| 0 <= k < |after| && after[k] == x;
        assert k != i;
        assert rows[k] == x;
      }
    }
  }

  /** In a valid table an id names one row. */
  lemma FindUniqueId(rows: seq<UserRow>, u: UserRow)
    requires UniqueUsers(rows) && u in rows
    ensures Find(rows, ById(u.id)) == Ok(u)
  {
    var i := Locate(rows, ById(u.id));
    var k :| 0 <= k < |rows| && rows[k] == u;
    assert i <= k;
    assert rows[i].id == u.id;
  }

  /** Creation makes every new user active, whatever the caller set: `IsActive` false is a zero value
      gorm leaves to the column default. */
  lemma CreatedUsersAreActive(rows: seq<UserRow>, u: UserRow, freshId: Uuid, secretWidth: nat)
    requires Insert(rows, BeforeCreateUser(u, freshId), secretWidth).Ok?
    ensures var after := Insert(rows, BeforeCreateUser(u, freshId), secretWidth).value;
      after[|rows|].isActive && after[|rows|].id == freshId && after[|rows|].mfa == u.mfa
  {
  }
}
