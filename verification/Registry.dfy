/** The users and groups tables and their accessor: cli/server/dbaccessor.go. */
module Registry {
  import opened Common

  datatype Attribute = Attribute(name: string, value: string)

  /** A row of the users table; the attributes column is kept decoded. */
  datatype UserRecord = UserRecord(
    name: string, pass: string, typ: string, group: string, attrs: seq<Attribute>,
    state: int, maxEnrollments: int)

  datatype GroupRecord = GroupRecord(name: string, parent: string)

  // ----- The SQL statements, row by row; no table declares a key -----

  /** SELECT * FROM users WHERE id = ?, of which sqlx.Get takes the first row. */
  function SelectUser(users: seq<UserRecord>, id: string): (r: Option<UserRecord>)
    ensures r.Some? ==> r.value in users && r.value.name == id
    ensures r.None? ==> forall i :: 0 <= i < |users| ==> users[i].name != id
  {
    if users == [] then None
    else if users[0].name == id then Some(users[0])
    else SelectUser(users[1..], id)
  }

  /**
   * What a driver reports for an UPDATE: the rows that match, as SQLite and Postgres do, or only
   * those whose value changes, as the MySQL driver does unless clientFoundRows is set.
   */
  datatype Counting = Matched | Changed

  /** An update of the state to `v` WHERE id = ? counts this row. */
  predicate Counts(counting: Counting, row: UserRecord, id: string, v: int) {
    row.name == id && (counting.Changed? ==> row.state != v)
  }

  /** The number of rows that an update of the state to `v` WHERE id = ? is reported to affect. */
  function Affected(counting: Counting, users: seq<UserRecord>, id: string, v: int): (n: nat) {
    if users == [] then 0
    else (if Counts(counting, users[0], id, v) then 1 else 0) + Affected(counting, users[1..], id, v)
  }

  /** UPDATE users SET state = ? WHERE id = ?. */
  function SetState(users: seq<UserRecord>, id: string, v: int): (r: seq<UserRecord>)
    ensures |r| == |users|
  {
    seq(|users|, i requires 0 <= i < |users| =>
      if users[i].name == id then users[i].(state := v) else users[i])
  }

  /** UPDATE users SET max_enrollments = ? WHERE id = ?. */
  function SetMax(users: seq<UserRecord>, id: string, v: int): (r: seq<UserRecord>)
    ensures |r| == |users|
  {
    seq(|users|, i requires 0 <= i < |users| =>
      if users[i].name == id then users[i].(maxEnrollments := v) else users[i])
  }

  function SelectGroup(groups: seq<GroupRecord>, name: string): (r: Option<GroupRecord>)
    ensures r.Some? ==> r.value in groups && r.value.name == name
    ensures r.None? ==> forall i :: 0 <= i < |groups| ==> groups[i].name != name
  {
    if groups == [] then None
    else if groups[0].name == name then Some(groups[0])
    else SelectGroup(groups[1..], name)
  }

  predicate HasGroup(groups: seq<GroupRecord>, name: string) { SelectGroup(groups, name).Some? }

  // ----- Facts about the statements -----

  lemma {:induction false} SelectAfterSetState(users: seq<UserRecord>, id: string, v: int, other: string)
    ensures SelectUser(SetState(users, id, v), other) ==
            match SelectUser(users, other)
            case None => None
            case Some(u) => if other == id then Some(u.(state := v)) else Some(u)
  {
    if users != [] {
      SelectAfterSetState(users[1..], id, v, other);
      assert SetState(users, id, v)[1..] == SetState(users[1..], id, v);
    }
  }

  lemma {:induction false} SelectAfterInsert(users: seq<UserRecord>, row: UserRecord, other: string)
    ensures SelectUser(users + [row], other) ==
            if SelectUser(users, other).Some? then SelectUser(users, other)
            else if row.name == other then Some(row) else None
  {
    if users == [] {
      assert (users + [row])[1..] == [];
    } else {
      SelectAfterInsert(users[1..], row, other);
      assert (users + [row])[1..] == users[1..] + [row];
    }
  }

  /** Each id has at most one row. */
  ghost predicate Unique(users: seq<UserRecord>) {
    forall i, j :: 0 <= i < j < |users| ==> users[i].name != users[j].name
  }

  lemma {:induction false} AffectedNone(counting: Counting, users: seq<UserRecord>, id: string, v: int)
    requires forall i :: 0 <= i < |users| ==> users[i].name != id
    ensures Affected(counting, users, id, v) == 0
  {
    if users != [] {
      AffectedNone(counting, users[1..], id, v);
    }
  }

  lemma {:induction false} AffectedOfUnique(counting: Counting, users: seq<UserRecord>, id: string, v: int)
    requires Unique(users)
    ensures Affected(counting, users, id, v) ==
            match SelectUser(users, id)
            case Some(u) => if Counts(counting, u, id, v) then 1 else 0
            case None => 0
  {
    if users != [] {
      AffectedOfUnique(counting, users[1..], id, v);
      if users[0].name == id {
        AffectedNone(counting, users[1..], id, v);
      }
    }
  }

  // ----- Users read from the table -----

  /** A DBUser: what GetUser read, at the time it read it. */
  datatype DBUser = DBUser(
    name: string, pass: string, state: int, maxEnrollments: int,
    affiliationPath: seq<string>, attrs: map<string, string>)

  /** The attribute map after the first `n` attributes: the last value of a name wins. */
  function AttributeMap(attrs: seq<Attribute>, n: nat): (m: map<string, string>)
    requires n <= |attrs|
  {
    if n == 0 then map[] else AttributeMap(attrs, n - 1)[attrs[n - 1].name := attrs[n - 1].value]
  }

  function DBUserOf(rec: UserRecord): (u: DBUser) {
    DBUser(rec.name, rec.pass, rec.state, rec.maxEnrollments, Split(rec.group, '/'),
           AttributeMap(rec.attrs, |rec.attrs|))
  }

  /** GetAttribute: a missing name reads as the empty string. */
  function AttributeOf(u: DBUser, name: string): (v: string) {
    if name in u.attrs then u.attrs[name] else ""
  }

  // ----- Login -----

  datatype LoginResult = LoggedIn | BadPassword | MaxReached | NoRows | ManyRows

  /**
   * Login on a snapshot: it checks the snapshot and writes the snapshot's state plus one,
   * whatever the table holds by then.
   */
  function LoginEffect(counting: Counting, users: seq<UserRecord>, u: DBUser, pass: string)
    : (r: (seq<UserRecord>, LoginResult))
  {
    if u.pass != pass then (users, BadPassword)
    else if u.maxEnrollments < 0 then (users, LoggedIn)
    else if u.maxEnrollments != 0 && u.state >= u.maxEnrollments then (users, MaxReached)
    else
      var affected := Affected(counting, users, u.name, u.state + 1);
      (SetState(users, u.name, u.state + 1),
       if affected == 0 then NoRows else if affected != 1 then ManyRows else LoggedIn)
  }

  datatype Field = SerialNumber | Aki | Prekey | MaxEnrollments | State

  class Accessor {
    const counting: Counting
    var users: seq<UserRecord>
    var groups: seq<GroupRecord>

    constructor (counting: Counting)
      ensures users == [] && groups == [] && this.counting == counting
    {
      this.counting, users, groups := counting, [], [];
    }

    /** The new row starts with state 0 and maximum 0, whatever the configuration. */
    method InsertUser(name: string, pass: string, typ: string, group: string, attrs: seq<Attribute>)
      modifies this`users
      ensures users == old(users) + [UserRecord(name, pass, typ, group, attrs, 0, 0)]
    {
      users := users + [UserRecord(name, pass, typ, group, attrs, 0, 0)];
    }

    method UpdateField(id: string, field: Field, value: int) returns (ok: bool)
      modifies this`users
      ensures ok <==> field.MaxEnrollments? || field.State?
      ensures users == match field
                       case MaxEnrollments => SetMax(old(users), id, value)
                       case State => SetState(old(users), id, value)
                       case _ => old(users)
    {
      match field
      case MaxEnrollments => users := SetMax(users, id, value); ok := true;
      case State => users := SetState(users, id, value); ok := true;
      case _ => ok := false;
    }

    method GetUser(id: string) returns (r: Option<DBUser>)
      ensures r == match SelectUser(users, id) case None => None case Some(rec) => Some(DBUserOf(rec))
    {
      var rec := SelectUser(users, id);
      if rec.None? { return None; }
      var user := NewDBUser(rec.value);
      return Some(user);
    }

    method NewDBUser(rec: UserRecord) returns (user: DBUser)
      ensures user == DBUserOf(rec)
    {
      var attrs: map<string, string> := map[];
      for i := 0 to |rec.attrs|
        invariant attrs == AttributeMap(rec.attrs, i)
      {
        attrs := attrs[rec.attrs[i].name := rec.attrs[i].value];
      }
      user := DBUser(rec.name, rec.pass, rec.state, rec.maxEnrollments, Split(rec.group, '/'), attrs);
    }

    method Login(u: DBUser, pass: string) returns (r: LoginResult)
      modifies this`users
      ensures (users, r) == LoginEffect(counting, old(users), u, pass)
    {
      if u.pass != pass { return BadPassword; }
      if u.maxEnrollments >= 0 {
        if u.maxEnrollments != 0 {
          if u.state >= u.maxEnrollments { return MaxReached; }
        }
        var numRowsAffected := Affected(counting, users, u.name, u.state + 1);
        users := SetState(users, u.name, u.state + 1);
        if numRowsAffected == 0 { return NoRows; }
        if numRowsAffected != 1 { return ManyRows; }
      }
      return LoggedIn;
    }

    method InsertGroup(name: string, parent: string)
      modifies this`groups
      ensures groups == old(groups) + [GroupRecord(name, parent)]
    {
      groups := groups + [GroupRecord(name, parent)];
    }

    method GetGroup(name: string) returns (r: Option<GroupRecord>)
      ensures r == SelectGroup(groups, name)
    {
      r := SelectGroup(groups, name);
    }
  }

  // ----- Attribute maps -----

  /** The map sends a name to its last value. */
  lemma {:induction false} LastValueWins(attrs: seq<Attribute>, n: nat, name: string)
    requires n <= |attrs|
    ensures name in AttributeMap(attrs, n) <==> exists i :: 0 <= i < n && attrs[i].name == name
    ensures forall p :: 0 <= p < n && attrs[p].name == name && (forall i :: p < i < n ==> attrs[i].name != name) ==>
              name in AttributeMap(attrs, n) && AttributeMap(attrs, n)[name] == attrs[p].value
  {
    if n > 0 {
      LastValueWins(attrs, n - 1, name);
    }
  }

  // ----- Login and duplicate rows -----

  /** Where ids are unique, a login whose user was just read affects exactly one row, however rows are counted. */
  lemma LoginAffectsOneRow(counting: Counting, users: seq<UserRecord>, id: string, u: UserRecord, pass: string)
    requires Unique(users) && SelectUser(users, id) == Some(u)
    ensures Affected(counting, users, id, u.state + 1) == 1
    ensures var result := LoginEffect(counting, users, DBUserOf(u), pass).1; !result.NoRows? && !result.ManyRows?
  {
    AffectedOfUnique(counting, users, id, u.state + 1);
  }

  lemma {:induction false} AffectedAtLeast(
      counting: Counting, users: seq<UserRecord>, id: string, v: int, i: nat, j: nat)
    requires i < j < |users| && Counts(counting, users[i], id, v) && Counts(counting, users[j], id, v)
    ensures Affected(counting, users, id, v) >= 2
  {
    if i > 0 {
      AffectedAtLeast(counting, users[1..], id, v, i - 1, j - 1);
    } else {
      AffectedPositive(counting, users[1..], id, v, j - 1);
    }
  }

  lemma {:induction false} AffectedPositive(counting: Counting, users: seq<UserRecord>, id: string, v: int, j: nat)
    requires j < |users| && Counts(counting, users[j], id, v)
    ensures Affected(counting, users, id, v) >= 1
  {
    if j > 0 {
      AffectedPositive(counting, users[1..], id, v, j - 1);
    }
  }

  /** Where two rows of an id are counted its login fails, and yet counts: all its rows are written. */
  lemma DuplicateRowsBlockLogin(counting: Counting, users: seq<UserRecord>, i: nat, j: nat, u: DBUser)
    requires i < j < |users|
    requires Counts(counting, users[i], u.name, u.state + 1) && Counts(counting, users[j], u.name, u.state + 1)
    requires u.maxEnrollments == 0 || (u.maxEnrollments > 0 && u.state < u.maxEnrollments)
    ensures LoginEffect(counting, users, u, u.pass) == (SetState(users, u.name, u.state + 1), ManyRows)
  {
    AffectedAtLeast(counting, users, u.name, u.state + 1, i, j);
  }
}
