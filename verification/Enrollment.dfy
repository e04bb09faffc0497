/** Registration, login and revocation by name, and runs of them: cli/server/register.go, auth.go, revoke.go. */
module Enrollment {
  import opened Common
  import opened Registry

  /** strings.ToLower is foreign code: any function on strings. */
  type Lower = string -> string

  datatype Tables = Tables(users: seq<UserRecord>, groups: seq<GroupRecord>)

  /** A request to register; `secret` is the optional one, `random` the one to fall back to. */
  datatype Registration = Registration(
    id: string, typ: string, group: string, attrs: seq<Attribute>, registrar: string,
    secret: string, random: string, max: int)

  const REGISTRAR_ROLES := "hf.Registrar.Roles"
  const REVOKER := "hf.Revoker"

  // ----- Registration -----

  predicate Contained(lower: Lower, str: string, strs: seq<string>) {
    exists i :: 0 <= i < |strs| && lower(strs[i]) == lower(str)
  }

  method StrContained(lower: Lower, str: string, strs: seq<string>) returns (r: bool)
    ensures r <==> Contained(lower, str, strs)
  {
    for i := 0 to |strs|
      invariant forall j :: 0 <= j < i ==> lower(strs[j]) != lower(str)
    {
      if lower(strs[i]) == lower(str) { return true; }
    }
    return false;
  }

  /** The types that a registrar may register. */
  function RolesOf(u: DBUser): (roles: seq<string>) {
    if AttributeOf(u, REGISTRAR_ROLES) == "" then [] else Split(AttributeOf(u, REGISTRAR_ROLES), ',')
  }

  predicate MayRegister(lower: Lower, users: seq<UserRecord>, registrar: string, typ: string) {
    match SelectUser(users, registrar)
    case None => false
    case Some(rec) => Contained(lower, typ, RolesOf(DBUserOf(rec)))
  }

  predicate RequiresGroup(lower: Lower, typ: string) { lower(typ) == "peer" || lower(typ) == "client" }

  function SecretOf(q: Registration): (secret: string) { if q.secret != "" then q.secret else q.random }

  function RowOf(q: Registration): (row: UserRecord) {
    UserRecord(q.id, SecretOf(q), q.typ, q.group, q.attrs, 0, q.max)
  }

  predicate Registrable(lower: Lower, t: Tables, q: Registration) {
    && (q.registrar != "" ==> MayRegister(lower, t.users, q.registrar, q.typ))
    && (RequiresGroup(lower, q.typ) ==> HasGroup(t.groups, q.group))
    && SelectUser(t.users, q.id).None?
  }

  /** Insert and then set the maximum: with a fresh id only the new row is changed. */
  lemma SetMaxAfterInsert(users: seq<UserRecord>, row: UserRecord, max: int)
    requires SelectUser(users, row.name).None?
    ensures SetMax(users + [row], row.name, max) == users + [row.(maxEnrollments := max)]
  {
  }

  method RequireGroup(lower: Lower, userType: string) returns (required: bool)
    ensures required <==> RequiresGroup(lower, userType)
    ensures required <==> lower(userType) in {"client", "peer"}
  {
    var t := lower(userType);
    return t == "peer" || t == "client";
  }

  method CanRegister(acc: Accessor, lower: Lower, registrar: string, userType: string) returns (ok: bool)
    ensures ok <==> MayRegister(lower, acc.users, registrar, userType)
  {
    var user := acc.GetUser(registrar);
    if user.None? { return false; }
    var rolesStr := if REGISTRAR_ROLES in user.value.attrs then user.value.attrs[REGISTRAR_ROLES] else "";
    var roles: seq<string> := [];
    if rolesStr != "" { roles := Split(rolesStr, ','); }
    ok := StrContained(lower, userType, roles);
  }

  /** Where `name` occurs last among the attributes. */
  predicate LastAt(attrs: seq<Attribute>, p: int, name: string) {
    && 0 <= p < |attrs| && attrs[p].name == name
    && forall i :: p < i < |attrs| ==> attrs[i].name != name
  }

  /**
   * Who may register what: the registrar has a row, and the type is, in some letter case, among the
   * comma-separated parts of the last value of its attribute hf.Registrar.Roles, if that is not empty.
   */
  lemma MayRegisterExactly(lower: Lower, users: seq<UserRecord>, registrar: string, typ: string, rec: UserRecord)
    requires SelectUser(users, registrar) == Some(rec)
    ensures forall p :: LastAt(rec.attrs, p, "hf.Registrar.Roles") ==>
              (MayRegister(lower, users, registrar, typ) <==>
               && rec.attrs[p].value != ""
               && exists part :: part in Split(rec.attrs[p].value, ',') && lower(part) == lower(typ))
    ensures (forall i :: 0 <= i < |rec.attrs| ==> rec.attrs[i].name != "hf.Registrar.Roles") ==>
              !MayRegister(lower, users, registrar, typ)
  {
    hide Split, SelectUser;
    LastValueWins(rec.attrs, |rec.attrs|, REGISTRAR_ROLES);
    forall p | LastAt(rec.attrs, p, "hf.Registrar.Roles")
      ensures MayRegister(lower, users, registrar, typ) <==>
              && rec.attrs[p].value != ""
              && exists part :: part in Split(rec.attrs[p].value, ',') && lower(part) == lower(typ)
    {
      ContainedParts(lower, typ, Split(rec.attrs[p].value, ','));
    }
  }

  lemma ContainedParts(lower: Lower, str: string, strs: seq<string>)
    ensures Contained(lower, str, strs) <==> exists part :: part in strs && lower(part) == lower(str)
  {
    if Contained(lower, str, strs) {
      var i :| 0 <= i < |strs| && lower(strs[i]) == lower(str);
      assert strs[i] in strs;
    }
  }

  method RegisterUser(acc: Accessor, lower: Lower, q: Registration) returns (r: Outcome<string>)
    modifies acc`users
    ensures !r.Panic?
    ensures r.Ok? <==> Registrable(lower, Tables(old(acc.users), acc.groups), q)
    ensures r.Ok? ==> r.value == if q.secret != "" then q.secret else q.random
    ensures r.Ok? ==> acc.users == old(acc.users) + [UserRecord(q.id, r.value, q.typ, q.group, q.attrs, 0, q.max)]
    ensures !r.Ok? ==> acc.users == old(acc.users)
    ensures (Tables(acc.users, acc.groups), r.Ok?) ==
            Apply(Env(lower, acc.counting), Tables(old(acc.users), acc.groups), Register(q))
  {
    if q.registrar != "" {
      var allowed := CanRegister(acc, lower, q.registrar, q.typ);
      if !allowed { return Err("may not register type"); }
    }
    var groupRequired := RequireGroup(lower, q.typ);
    if groupRequired {
      var group := acc.GetGroup(q.group);
      if group.None? { return Err("no such group"); }
    }
    var tok;
    if |q.secret| > 0 { tok := q.secret; } else { tok := q.random; }
    var existing := acc.GetUser(q.id);
    if existing.Some? { return Err("User is already registered"); }
    acc.InsertUser(q.id, tok, q.typ, q.group, q.attrs);
    SetMaxAfterInsert(old(acc.users), UserRecord(q.id, tok, q.typ, q.group, q.attrs, 0, 0), q.max);
    var ok := acc.UpdateField(q.id, MaxEnrollments, q.max);
    if !ok { return Err("update"); }
    return Ok(tok);
  }

  // ----- Revocation by name, as far as the users table goes -----

  predicate HasAttribute(users: seq<UserRecord>, id: string, name: string) {
    match SelectUser(users, id)
    case None => false
    case Some(rec) => AttributeOf(DBUserOf(rec), name) != ""
  }

  // ----- Atomic steps -----

  datatype Step =
    | RegisterGroup(name: string, parent: string)
    | Register(q: Registration)
    | Login(id: string, pass: string)
    | RevokeByName(caller: string, id: string)

  /** What a server runs on: the foreign lower-casing, and how its driver counts rows. */
  datatype Env = Env(lower: Lower, counting: Counting)

  /** One step: what it makes of the tables, and whether it succeeds. */
  function Apply(env: Env, t: Tables, step: Step): (r: (Tables, bool)) {
    match step
    case RegisterGroup(name, parent) =>
      if HasGroup(t.groups, name) then (t, false)
      else (t.(groups := t.groups + [GroupRecord(name, parent)]), true)
    case Register(q) =>
      if Registrable(env.lower, t, q) then (t.(users := t.users + [RowOf(q)]), true) else (t, false)
    case Login(id, pass) =>
      (match SelectUser(t.users, id)
       case None => (t, false)
       case Some(rec) =>
         var (users, result) := LoginEffect(env.counting, t.users, DBUserOf(rec), pass);
         (t.(users := users), result.LoggedIn?))
    case RevokeByName(caller, id) =>
      if HasAttribute(t.users, caller, REVOKER) && SelectUser(t.users, id).Some?
      then (t.(users := SetState(t.users, id, -1)), true) else (t, false)
  }

  /** Checking a user's credentials: a read of the user and then the login. */
  method Authenticate(acc: Accessor, lower: Lower, id: string, pass: string) returns (ok: bool)
    modifies acc`users
    ensures (Tables(acc.users, acc.groups), ok) ==
            Apply(Env(lower, acc.counting), Tables(old(acc.users), acc.groups), Login(id, pass))
  {
    var user := acc.GetUser(id);
    if user.None? { return false; }
    var r := acc.Login(user.value, pass);
    return r.LoggedIn?;
  }

  // ----- Runs -----

  type Run = seq<Step>

  /** The tables after the first `n` steps, from empty tables. */
  function After(env: Env, run: Run, n: nat): (t: Tables)
    requires n <= |run|
  {
    if n == 0 then Tables([], []) else Apply(env, After(env, run, n - 1), run[n - 1]).0
  }

  /** Some run leads to these tables. */
  ghost predicate Reachable(env: Env, t: Tables) {
    exists run: Run :: After(env, run, |run|) == t
  }

  lemma {:induction false} AfterPrefix(env: Env, run: Run, step: Step, n: nat)
    requires n <= |run|
    ensures After(env, run + [step], n) == After(env, run, n)
  {
    hide Apply;
    if n > 0 {
      AfterPrefix(env, run, step, n - 1);
    }
  }

  lemma StepStaysReachable(env: Env, t: Tables, step: Step)
    requires Reachable(env, t)
    ensures Reachable(env, Apply(env, t, step).0)
  {
    hide Apply;
    var run: Run :| After(env, run, |run|) == t;
    AfterPrefix(env, run, step, |run|);
    assert After(env, run + [step], |run| + 1) == Apply(env, t, step).0;
  }

  predicate Succeeds(env: Env, run: Run, i: nat)
    requires i < |run|
  {
    Apply(env, After(env, run, i), run[i]).1
  }

  predicate LoginAt(env: Env, run: Run, id: string, i: nat)
    requires i < |run|
  {
    run[i].Login? && run[i].id == id && Succeeds(env, run, i)
  }

  predicate RevocationAt(env: Env, run: Run, id: string, i: nat)
    requires i < |run|
  {
    run[i].RevokeByName? && run[i].id == id && Succeeds(env, run, i)
  }

  /** The number of successful logins of `id` among steps `from` to `n`. */
  function Logins(env: Env, run: Run, id: string, from: nat, n: nat): (c: nat)
    requires n <= |run|
    decreases n
  {
    if n <= from then 0
    else Logins(env, run, id, from, n - 1) + (if LoginAt(env, run, id, n - 1) then 1 else 0)
  }

  function Revocations(env: Env, run: Run, id: string, n: nat): (c: nat)
    requires n <= |run|
  {
    if n == 0 then 0
    else Revocations(env, run, id, n - 1) + (if RevocationAt(env, run, id, n - 1) then 1 else 0)
  }

  /** The step after the last revocation of `id`, or 0 if there was none. */
  function SinceRevocation(env: Env, run: Run, id: string, n: nat): (from: nat)
    requires n <= |run|
    ensures from <= n
  {
    if n == 0 then 0
    else if RevocationAt(env, run, id, n - 1) then n
    else SinceRevocation(env, run, id, n - 1)
  }

  // ----- What every step keeps -----

  lemma SetStateKeepsNames(users: seq<UserRecord>, id: string, v: int)
    ensures forall i :: 0 <= i < |users| ==> SetState(users, id, v)[i].name == users[i].name
    ensures Unique(users) ==> Unique(SetState(users, id, v))
  {
  }

  lemma SetStateKeepsAttributes(users: seq<UserRecord>, id: string, v: int, who: string, name: string)
    ensures HasAttribute(SetState(users, id, v), who, name) == HasAttribute(users, who, name)
  {
    hide SelectUser, SetState, AttributeMap;
    SelectAfterSetState(users, id, v, who);
  }

  lemma InsertKeepsUnique(users: seq<UserRecord>, row: UserRecord)
    requires Unique(users) && SelectUser(users, row.name).None?
    ensures Unique(users + [row])
  {
  }

  lemma ApplyKeepsUnique(env: Env, t: Tables, step: Step)
    requires Unique(t.users)
    ensures Unique(Apply(env, t, step).0.users)
  {
    hide Unique, SelectUser, SetState, MayRegister, RequiresGroup, HasGroup, HasAttribute, Affected;
    match step
    case RegisterGroup(_, _) =>
    case Register(q) =>
      if SelectUser(t.users, q.id).None? {
        InsertKeepsUnique(t.users, RowOf(q));
      }
    case Login(id, pass) =>
      if SelectUser(t.users, id).Some? {
        SetStateKeepsNames(t.users, id, SelectUser(t.users, id).value.state + 1);
      }
    case RevokeByName(_, id) => SetStateKeepsNames(t.users, id, -1);
  }

  /** Each id has at most one row in every reachable state, although no schema need declare a key. */
  lemma {:induction false} IdsAreUnique(env: Env, run: Run, n: nat)
    requires n <= |run|
    ensures Unique(After(env, run, n).users)
  {
    hide Apply;
    if n > 0 {
      IdsAreUnique(env, run, n - 1);
      ApplyKeepsUnique(env, After(env, run, n - 1), run[n - 1]);
    }
  }

  lemma LoginOnRow(
      counting: Counting, users: seq<UserRecord>, other: string, rec: UserRecord, pass: string, id: string)
    requires Unique(users) && SelectUser(users, other) == Some(rec)
    ensures var (users', result) := LoginEffect(counting, users, DBUserOf(rec), pass);
            SelectUser(users', id) ==
            match SelectUser(users, id)
            case None => None
            case Some(u) =>
              if id == other && result.LoggedIn? && u.maxEnrollments >= 0 then Some(u.(state := u.state + 1))
              else Some(u)
  {
    hide Split, AttributeMap, SetState, Affected, SelectUser;
    AffectedOfUnique(counting, users, other, rec.state + 1);
    SelectAfterSetState(users, other, rec.state + 1, id);
  }

  /** What a step does to the row of `id`, if any; a new row starts with state 0. */
  lemma ApplyOnRow(env: Env, t: Tables, step: Step, id: string)
    requires Unique(t.users)
    ensures var (t', ok) := Apply(env, t, step);
            var r, r' := SelectUser(t.users, id), SelectUser(t'.users, id);
            && (r.Some? ==> r' == Some(
                  if step.Login? && step.id == id && ok && r.value.maxEnrollments >= 0
                  then r.value.(state := r.value.state + 1)
                  else if step.RevokeByName? && step.id == id && ok then r.value.(state := -1)
                  else r.value))
            && (r.None? && (step.Login? || step.RevokeByName?) && step.id == id ==> !ok)
            && (r.None? && r'.Some? ==> step.Register? && ok && r'.value == RowOf(step.q))
  {
    hide Registrable, LoginEffect, DBUserOf, HasAttribute, SetState;
    match step
    case RegisterGroup(_, _) =>
    case Register(q) => SelectAfterInsert(t.users, RowOf(q), id);
    case Login(other, pass) =>
      if SelectUser(t.users, other).Some? {
        LoginOnRow(env.counting, t.users, other, SelectUser(t.users, other).value, pass, id);
      }
    case RevokeByName(_, other) => SelectAfterSetState(t.users, other, -1, id);
  }

  /** What step number `n` of a run does to the row of `id`, when it has one. */
  lemma StepOnRow(env: Env, run: Run, n: nat, id: string)
    requires n < |run|
    requires SelectUser(After(env, run, n).users, id).Some?
    ensures var u := SelectUser(After(env, run, n).users, id).value;
            SelectUser(After(env, run, n + 1).users, id) == Some(
              if LoginAt(env, run, id, n) && u.maxEnrollments >= 0 then u.(state := u.state + 1)
              else if RevocationAt(env, run, id, n) then u.(state := -1)
              else u)
  {
    hide Apply;
    IdsAreUnique(env, run, n);
    ApplyOnRow(env, After(env, run, n), run[n], id);
  }

  /** Before an id has a row nothing about it succeeds; its row starts with state 0. */
  lemma StepWithoutRow(env: Env, run: Run, n: nat, id: string)
    requires n < |run|
    requires SelectUser(After(env, run, n).users, id).None?
    ensures !LoginAt(env, run, id, n) && !RevocationAt(env, run, id, n)
    ensures var r := SelectUser(After(env, run, n + 1).users, id);
            r.Some? ==> run[n].Register? && r.value == RowOf(run[n].q) && r.value.state == 0
  {
    hide Apply;
    IdsAreUnique(env, run, n);
    ApplyOnRow(env, After(env, run, n), run[n], id);
  }

  lemma {:induction false} NothingBeforeRegistration(env: Env, run: Run, n: nat, id: string)
    requires n <= |run|
    requires SelectUser(After(env, run, n).users, id).None?
    ensures Logins(env, run, id, 0, n) == 0 && Revocations(env, run, id, n) == 0
    ensures SinceRevocation(env, run, id, n) == 0
  {
    hide Apply, Succeeds;
    if n > 0 {
      if SelectUser(After(env, run, n - 1).users, id).Some? {
        StepOnRow(env, run, n - 1, id);
      }
      NothingBeforeRegistration(env, run, n - 1, id);
      StepWithoutRow(env, run, n - 1, id);
    }
  }

  // ----- The counting theorems -----

  /**
   * In every run, for every id with a row and a maximum that is not negative: the state column is the
   * number of successful logins since registration, or, after a revocation by name, the number since
   * the last one, minus one.
   */
  lemma {:induction false} StateCountsLogins(env: Env, run: Run, n: nat, id: string)
    requires n <= |run|
    requires var r := SelectUser(After(env, run, n).users, id); r.Some? && r.value.maxEnrollments >= 0
    ensures var from := SinceRevocation(env, run, id, n);
            SelectUser(After(env, run, n).users, id).value.state ==
            Logins(env, run, id, from, n) - (if Revocations(env, run, id, n) > 0 then 1 else 0)
  {
    hide Apply, Succeeds;
    if n > 0 {
      if SelectUser(After(env, run, n - 1).users, id).Some? {
        StepOnRow(env, run, n - 1, id);
        StateCountsLogins(env, run, n - 1, id);
      } else {
        StepWithoutRow(env, run, n - 1, id);
        NothingBeforeRegistration(env, run, n - 1, id);
      }
    }
  }

  /** A login of a registered id succeeds exactly with its secret and below its maximum, if it has one. */
  lemma LoginSucceedsIff(env: Env, run: Run, i: nat)
    requires i < |run| && run[i].Login?
    ensures Succeeds(env, run, i) <==>
            var r := SelectUser(After(env, run, i).users, run[i].id);
            && r.Some? && run[i].pass == r.value.pass
            && (r.value.maxEnrollments <= 0 || r.value.state < r.value.maxEnrollments)
  {
    IdsAreUnique(env, run, i);
    var r := SelectUser(After(env, run, i).users, run[i].id);
    if r.Some? {
      AffectedOfUnique(env.counting, After(env, run, i).users, run[i].id, r.value.state + 1);
    }
  }

  /**
   * With a positive maximum m the state stays between -1 and m, and after r revocations by name
   * at most m + r * (m + 1) logins have succeeded.
   */
  lemma {:induction false} LoginsAreBounded(env: Env, run: Run, n: nat, id: string)
    requires n <= |run|
    requires var r := SelectUser(After(env, run, n).users, id); r.Some? && r.value.maxEnrollments > 0
    ensures var u := SelectUser(After(env, run, n).users, id).value;
            var m, r := u.maxEnrollments, Revocations(env, run, id, n);
            && -1 <= u.state <= m
            && Logins(env, run, id, 0, n) <= u.state + r * (m + 1) <= m + r * (m + 1)
  {
    hide Apply, Succeeds, SelectUser;
    if n > 0 {
      var users := After(env, run, n - 1).users;
      if SelectUser(users, id).Some? {
        StepOnRow(env, run, n - 1, id);
        LoginsAreBounded(env, run, n - 1, id);
        if run[n - 1].Login? {
          LoginSucceedsIff(env, run, n - 1);
        }
        var m, r := SelectUser(users, id).value.maxEnrollments, Revocations(env, run, id, n - 1);
        assert (r + 1) * (m + 1) == r * (m + 1) + m + 1;
      } else {
        StepWithoutRow(env, run, n - 1, id);
        NothingBeforeRegistration(env, run, n - 1, id);
      }
    }
  }

  /** Revocation by name does not stop logins: whatever the maximum, the next one with the secret succeeds. */
  lemma RevokedUserLogsIn(env: Env, run: Run, i: nat, id: string)
    requires i + 1 < |run| && RevocationAt(env, run, id, i)
    requires run[i + 1] == Login(id, SelectUser(After(env, run, i).users, id).value.pass)
    ensures Succeeds(env, run, i + 1)
  {
    hide SelectUser, HasAttribute, LoginEffect, Registrable;
    StepOnRow(env, run, i, id);
    LoginSucceedsIff(env, run, i + 1);
  }

  /**
   * Once revoked by name, a user still logs in: with its secret, exactly while the logins since the
   * last revocation number at most the maximum, or for ever if the maximum is not positive.
   */
  lemma LoginAfterRevocation(env: Env, run: Run, i: nat)
    requires i < |run| && run[i].Login? && Revocations(env, run, run[i].id, i) > 0
    ensures var id := run[i].id;
            var r := SelectUser(After(env, run, i).users, id);
            && r.Some?
            && (Succeeds(env, run, i) <==>
                && run[i].pass == r.value.pass
                && (r.value.maxEnrollments <= 0
                    || Logins(env, run, id, SinceRevocation(env, run, id, i), i) <= r.value.maxEnrollments))
  {
    hide Apply, Succeeds;
    var id := run[i].id;
    var r := SelectUser(After(env, run, i).users, id);
    if r.None? {
      NothingBeforeRegistration(env, run, i, id);
    } else {
      LoginSucceedsIff(env, run, i);
      if r.value.maxEnrollments > 0 {
        StateCountsLogins(env, run, i, id);
      }
    }
  }

  /**
   * The secret that opens an account: after the registration of q, a login of its id succeeds exactly with
   * the secret given, or the random one where none was given, and below a positive maximum.
   */
  lemma SecretLogsIn(env: Env, run: Run, i: nat, n: nat)
    requires i < n < |run| && run[i].Register? && Succeeds(env, run, i)
    requires run[n].Login? && run[n].id == run[i].q.id
    ensures var q := run[i].q;
            var u := SelectUser(After(env, run, n).users, q.id);
            && u.Some?
            && (Succeeds(env, run, n) <==>
                && run[n].pass == (if q.secret != "" then q.secret else q.random)
                && (q.max <= 0 || u.value.state < q.max))
  {
    var q := run[i].q;
    SelectAfterInsert(After(env, run, i).users, RowOf(q), q.id);
    hide Apply, Succeeds, SelectUser;
    RowsPersist(env, run, i + 1, n, q.id);
    LoginSucceedsIff(env, run, n);
  }

  // ----- Registered users stay within the rules -----

  /** All columns but the state. */
  predicate SameIdentity(u: UserRecord, v: UserRecord) { u.(state := 0) == v.(state := 0) }

  lemma {:induction false} RowsPersist(env: Env, run: Run, i: nat, n: nat, id: string)
    requires i <= n <= |run| && SelectUser(After(env, run, i).users, id).Some?
    ensures SelectUser(After(env, run, n).users, id).Some?
    ensures SameIdentity(SelectUser(After(env, run, n).users, id).value, SelectUser(After(env, run, i).users, id).value)
    decreases n
  {
    hide Apply, Succeeds;
    if i < n {
      RowsPersist(env, run, i, n - 1, id);
      StepOnRow(env, run, n - 1, id);
    }
  }

  /** Whoever was registered by a named registrar has a type that this registrar's roles still contain. */
  lemma RegistrarAllowsType(env: Env, run: Run, i: nat, n: nat)
    requires i < n <= |run| && run[i].Register? && Succeeds(env, run, i) && run[i].q.registrar != ""
    ensures var u := SelectUser(After(env, run, n).users, run[i].q.id);
            && u.Some? && u.value.typ == run[i].q.typ
            && MayRegister(env.lower, After(env, run, n).users, run[i].q.registrar, u.value.typ)
  {
    var q := run[i].q;
    SelectAfterInsert(After(env, run, i).users, RowOf(q), q.id);
    RowsPersist(env, run, i + 1, n, q.id);
    RowsPersist(env, run, i, n, q.registrar);
  }

  lemma {:induction false} HasGroupAfterInsert(groups: seq<GroupRecord>, row: GroupRecord, name: string)
    ensures HasGroup(groups + [row], name) <==> HasGroup(groups, name) || row.name == name
  {
    if groups == [] {
      assert (groups + [row])[1..] == [];
    } else {
      HasGroupAfterInsert(groups[1..], row, name);
      assert (groups + [row])[1..] == groups[1..] + [row];
    }
  }

  /** A step keeps every row but for its state, and adds at most the row of a registration. */
  lemma ApplyOnTable(env: Env, t: Tables, step: Step)
    ensures var t' := Apply(env, t, step).0;
            && |t.users| <= |t'.users| <= |t.users| + 1
            && (forall i :: 0 <= i < |t.users| ==> SameIdentity(t'.users[i], t.users[i]))
            && (|t'.users| > |t.users| ==>
                  step.Register? && Registrable(env.lower, t, step.q) && t'.users[|t.users|] == RowOf(step.q)
                  && t'.groups == t.groups)
  {
    hide Registrable, HasAttribute, SelectUser, SelectGroup;
  }

  lemma GroupsStay(env: Env, t: Tables, step: Step, name: string)
    requires HasGroup(t.groups, name)
    ensures HasGroup(Apply(env, t, step).0.groups, name)
  {
    hide Registrable, HasAttribute, SelectUser, SelectGroup, LoginEffect;
    if step.RegisterGroup? {
      HasGroupAfterInsert(t.groups, GroupRecord(step.name, step.parent), name);
    }
  }

  /** In every reachable state each client and each peer, in any letter case, names an existing group. */
  lemma {:induction false} UsersHaveGroups(env: Env, run: Run, n: nat, i: nat)
    requires n <= |run| && i < |After(env, run, n).users|
    requires env.lower(After(env, run, n).users[i].typ) in {"client", "peer"}
    ensures HasGroup(After(env, run, n).groups, After(env, run, n).users[i].group)
  {
    hide Apply, HasGroup, MayRegister;
    if n > 0 {
      var before := After(env, run, n - 1);
      ApplyOnTable(env, before, run[n - 1]);
      if i < |before.users| {
        assert SameIdentity(After(env, run, n).users[i], before.users[i]);
        UsersHaveGroups(env, run, n - 1, i);
        GroupsStay(env, before, run[n - 1], before.users[i].group);
      }
    }
  }
}
