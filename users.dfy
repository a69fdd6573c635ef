/**
 * The `users` table and the UserDatabase operations over it: registration,
 * credential and identity lookups, nickname changes and the default admin.
 */
module Users {
  import opened Wrappers
  import Tables

  /** The reserved account whose nickname may never be changed. */
  const Admin: string := "admin"
  const AdminPassword: string := "admin_password"

  /** One row of `users(id, username, password, nickname)`; nickname may be NULL. */
  datatype UserRow = UserRow(id: int, username: string, password: string, nickname: Option<string>)

  /** The table's rows in rowid order and its AUTOINCREMENT counter (the last id handed out). */
  datatype UserTable = UserTable(rows: seq<UserRow>, lastId: int)

  /**
   * What every operation keeps: ids are positive, increasing and never above
   * the counter, and no username occurs twice (the schema does not enforce
   * it, but every insert first checks that the username is free).
   */
  ghost predicate ValidUsers(t: UserTable) {
    && t.lastId >= 0
    && (forall i :: 0 <= i < |t.rows| ==> 0 < t.rows[i].id <= t.lastId)
    && (forall i, j :: 0 <= i < j < |t.rows| ==> t.rows[i].id < t.rows[j].id)
    && (forall i, j :: 0 <= i < j < |t.rows| ==> t.rows[i].username != t.rows[j].username)
  }

  /** Some row carries this username. */
  ghost predicate Taken(rows: seq<UserRow>, login: string) {
    exists i :: 0 <= i < |rows| && rows[i].username == login
  }

  /** `SELECT * FROM users WHERE username = ?` */
  function UsernameIndex(rows: seq<UserRow>, login: string): Option<nat> {
    Tables.FindFirst(rows, (u: UserRow) => u.username == login)
  }

  /** The `WHERE username = ? OR nickname = ?` test of get_user; a NULL nickname matches nothing. */
  predicate Identifies(u: UserRow, identifier: string) {
    u.username == identifier || u.nickname == Some(identifier)
  }

  /** `UPDATE users SET nickname = ? WHERE username = ?` */
  function NicknameSet(rows: seq<UserRow>, login: string, newNickname: string): seq<UserRow> {
    Tables.UpdateWhere(rows, (u: UserRow) => u.username == login, (u: UserRow) => u.(nickname := Some(newNickname)))
  }

  /**
   * register_user: a taken username leaves the table as it was; a free one
   * gets exactly one new row, with the next id, appended after the others.
   */
  function Registered(t: UserTable, login: string, password: string, nickname: Option<string>): (r: UserTable)
    ensures ValidUsers(t) ==> ValidUsers(r)
    ensures Taken(t.rows, login) ==> r == t
    ensures !Taken(t.rows, login) ==>
      && |r.rows| == |t.rows| + 1
      && r.rows[..|t.rows|] == t.rows
      && r.rows[|t.rows|] == UserRow(r.lastId, login, password, nickname)
      && r.lastId == t.lastId + 1
    ensures Taken(r.rows, login)
  {
    if UsernameIndex(t.rows, login).Some? then t
    else
      var row := UserRow(t.lastId + 1, login, password, nickname);
      assert (t.rows + [row])[|t.rows|] == row;
      UserTable(t.rows + [row], t.lastId + 1)
  }

  /**
   * update_nickname: nothing changes for `admin`; otherwise exactly the rows
   * with that username get the new nickname, and no other field or row moves.
   */
  function Renamed(t: UserTable, login: string, newNickname: string): (r: UserTable)
    ensures ValidUsers(t) ==> ValidUsers(r)
    ensures login == Admin ==> r == t
    ensures r.lastId == t.lastId && |r.rows| == |t.rows|
    ensures forall i :: 0 <= i < |t.rows| ==>
      r.rows[i] == if login != Admin && t.rows[i].username == login
                   then t.rows[i].(nickname := Some(newNickname)) else t.rows[i]
    ensures forall i :: 0 <= i < |t.rows| && t.rows[i].username == Admin ==> r.rows[i] == t.rows[i]
  {
    if login == Admin then t else t.(rows := NicknameSet(t.rows, login, newNickname))
  }

  /**
   * Registering a username a second time, with any password and nickname,
   * changes nothing; in particular add_default_admin is idempotent.
   */
  lemma RegisterOnce(t: UserTable, login: string, p1: string, n1: Option<string>, p2: string, n2: Option<string>)
    ensures Registered(Registered(t, login, p1, n1), login, p2, n2) == Registered(t, login, p1, n1)
  {
  }

  class UserDatabase {
    var rows: seq<UserRow>
    var lastId: int

    function State(): UserTable
      reads this
    {
      UserTable(rows, lastId)
    }

    ghost predicate Valid()
      reads this
    {
      ValidUsers(State())
    }

    /** A freshly created, empty table. */
    constructor ()
      ensures Valid() && rows == [] && lastId == 0
    {
      rows := [];
      lastId := 0;
    }

    /** user_exists */
    function UserExists(login: string): (r: bool)
      reads this
      ensures r <==> exists i :: 0 <= i < |rows| && rows[i].username == login
    {
      UsernameIndex(rows, login).Some?
    }

    /** check_credentials: some row has both this username and this password. */
    function CheckCredentials(login: string, password: string): (r: bool)
      reads this
      ensures r <==> exists i :: 0 <= i < |rows| && rows[i].username == login && rows[i].password == password
    {
      Tables.FindFirst(rows, (u: UserRow) => u.username == login && u.password == password).Some?
    }

    /**
     * get_user: the first row, in rowid order, whose username or nickname is
     * the identifier; None when there is none.
     */
    function GetUser(identifier: string): (r: Option<UserRow>)
      reads this
      ensures r.None? <==> forall i :: 0 <= i < |rows| ==> !Identifies(rows[i], identifier)
      ensures r.Some? ==> exists i :: 0 <= i < |rows| && rows[i] == r.value && Identifies(r.value, identifier)
                            && forall j :: 0 <= j < i ==> !Identifies(rows[j], identifier)
    {
      match Tables.FindFirst(rows, (u: UserRow) => Identifies(u, identifier))
      case None => None
      case Some(k) => Some(rows[k])
    }

    /** register_user */
    method RegisterUser(login: string, password: string, nickname: Option<string>)
      requires Valid()
      modifies this
      ensures Valid()
      ensures State() == Registered(old(State()), login, password, nickname)
    {
      if UserExists(login) {
        return;
      }
      lastId := lastId + 1;
      rows := rows + [UserRow(lastId, login, password, nickname)];
    }

    /** update_nickname */
    method UpdateNickname(login: string, newNickname: string)
      requires Valid()
      modifies this
      ensures Valid()
      ensures State() == Renamed(old(State()), login, newNickname)
    {
      if login != Admin {
        rows := NicknameSet(rows, login, newNickname);
      }
    }

    /** add_default_admin: afterwards `admin` is present exactly once. */
    method AddDefaultAdmin()
      requires Valid()
      modifies this
      ensures Valid()
      ensures State() == Registered(old(State()), Admin, AdminPassword, None)
      ensures exists i :: 0 <= i < |rows| && rows[i].username == Admin
      ensures forall i, j :: 0 <= i < |rows| && 0 <= j < |rows| && rows[i].username == Admin && rows[j].username == Admin ==> i == j
    {
      if !UserExists(Admin) {
        lastId := lastId + 1;
        rows := rows + [UserRow(lastId, Admin, AdminPassword, None)];
      }
    }
  }
}
