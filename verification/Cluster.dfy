/**
 * Several servers on one database: login as a read step and a write step, interleaved at will.
 * cli/server/auth.go:105-109 is the read and the write; lines 372-446 of the repository's README.md
 * set up such clusters on Postgres, which counts matching rows, and on MySQL, which counts changed ones.
 */
module Cluster {
  import opened Common
  import opened Registry
  import opened Potential
  import Enrollment

  /** The number of request handlers over all servers, and what the servers run on. */
  datatype Setup = Setup(handlers: nat, env: Enrollment.Env)

  /** The shared tables, and the users that request handlers have read and not yet logged in. */
  datatype Shared = Shared(tables: Enrollment.Tables, pending: map<nat, DBUser>)

  datatype Step =
    | Read(handler: nat, id: string)
    | Write(handler: nat, pass: string)
    | Serve(request: Enrollment.Step)

  /** One step. Every request but a login is served at once, as in the runs of one server. */
  function Do(c: Setup, s: Shared, step: Step): (r: (Shared, bool)) {
    match step
    case Read(h, id) =>
      var rec := SelectUser(s.tables.users, id);
      if h < c.handlers && h !in s.pending && rec.Some?
      then (s.(pending := s.pending[h := DBUserOf(rec.value)]), true) else (s, false)
    case Write(h, pass) =>
      if h !in s.pending then (s, false)
      else
        var (users, result) := LoginEffect(c.env.counting, s.tables.users, s.pending[h], pass);
        (Shared(s.tables.(users := users), s.pending - {h}), result.LoggedIn?)
    case Serve(request) =>
      if request.Login? then (s, false)
      else
        var (tables, ok) := Enrollment.Apply(c.env, s.tables, request);
        (Shared(tables, s.pending), ok)
  }

  // ----- Runs -----

  function Exec(c: Setup, s: Shared, run: seq<Step>): (s': Shared)
    decreases |run|
  {
    if run == [] then s else Exec(c, Do(c, s, run[0]).0, run[1..])
  }

  /** The step is a successful login of `id`. */
  predicate IsWin(c: Setup, s: Shared, step: Step, id: string) {
    step.Write? && step.handler in s.pending && s.pending[step.handler].name == id && Do(c, s, step).1
  }

  /** The step is a revocation of `id` by name. */
  predicate IsReset(c: Setup, s: Shared, step: Step, id: string) {
    step.Serve? && step.request.RevokeByName? && step.request.id == id && Do(c, s, step).1
  }

  function Wins(c: Setup, s: Shared, run: seq<Step>, id: string): (n: nat)
    decreases |run|
  {
    if run == [] then 0
    else (if IsWin(c, s, run[0], id) then 1 else 0) + Wins(c, Do(c, s, run[0]).0, run[1..], id)
  }

  function Resets(c: Setup, s: Shared, run: seq<Step>, id: string): (n: nat)
    decreases |run|
  {
    if run == [] then 0
    else (if IsReset(c, s, run[0], id) then 1 else 0) + Resets(c, Do(c, s, run[0]).0, run[1..], id)
  }

  const EMPTY: Shared := Shared(Enrollment.Tables([], []), map[])

  /** A read at once followed by its write is the atomic login step. */
  lemma ReadThenWriteIsLogin(c: Setup, s: Shared, h: nat, id: string, pass: string)
    requires h < c.handlers && h !in s.pending
    ensures var (s', ok) := Do(c, Do(c, s, Read(h, id)).0, Write(h, pass));
            s'.pending == s.pending
            && (s'.tables, ok) == Enrollment.Apply(c.env, s.tables, Enrollment.Login(id, pass))
  {
    hide LoginEffect, DBUserOf;
    var rec := SelectUser(s.tables.users, id);
    if rec.Some? {
      assert s.pending[h := DBUserOf(rec.value)] - {h} == s.pending;
    }
  }

  // ----- What every step keeps -----

  /** A pending user has a row, with the secret and the maximum that were read. */
  ghost predicate Backed(users: seq<UserRecord>, u: DBUser) {
    var rec := SelectUser(users, u.name);
    rec.Some? && rec.value.pass == u.pass && rec.value.maxEnrollments == u.maxEnrollments
  }

  ghost predicate Good(c: Setup, s: Shared) {
    && Unique(s.tables.users)
    && forall h :: h in s.pending ==> h < c.handlers && Backed(s.tables.users, s.pending[h])
  }

  lemma SetStateKeepsBacked(users: seq<UserRecord>, id: string, v: int, u: DBUser)
    requires Backed(users, u)
    ensures Backed(SetState(users, id, v), u)
  {
    SelectAfterSetState(users, id, v, u.name);
  }

  lemma ServeKeepsBacked(env: Enrollment.Env, t: Enrollment.Tables, request: Enrollment.Step, u: DBUser)
    requires Unique(t.users) && Backed(t.users, u)
    ensures Backed(Enrollment.Apply(env, t, request).0.users, u)
  {
    hide Enrollment.Apply;
    Enrollment.ApplyOnRow(env, t, request, u.name);
  }

  lemma BackedByRow(users: seq<UserRecord>, rec: UserRecord)
    requires SelectUser(users, rec.name) == Some(rec)
    ensures Backed(users, DBUserOf(rec))
  {
  }

  lemma GoodKept(c: Setup, s: Shared, step: Step)
    requires Good(c, s)
    ensures Good(c, Do(c, s, step).0)
  {
    hide SelectUser, SetState, Backed, Affected, Unique, Enrollment.Apply;
    var s', users := Do(c, s, step).0, s.tables.users;
    match step
    case Read(h, id) =>
      if SelectUser(users, id).Some? {
        BackedByRow(users, SelectUser(users, id).value);
      }
    case Write(h, pass) =>
      if h in s.pending {
        var id, v := s.pending[h].name, s.pending[h].state + 1;
        Enrollment.SetStateKeepsNames(users, id, v);
        forall k | k in s.pending
          ensures Backed(s'.tables.users, s.pending[k])
        {
          SetStateKeepsBacked(users, id, v, s.pending[k]);
        }
      }
    case Serve(request) =>
      Enrollment.ApplyKeepsUnique(c.env, s.tables, request);
      forall k | k in s.pending
        ensures Backed(s'.tables.users, s.pending[k])
      {
        ServeKeepsBacked(c.env, s.tables, request, s.pending[k]);
      }
  }

  // ----- One user's view of the cluster -----

  function HeldBy(pending: map<nat, DBUser>, id: string): (held: map<nat, int>) {
    map h | h in pending && pending[h].name == id :: pending[h].state
  }

  function ViewOf(s: Shared, id: string): (v: View)
    requires SelectUser(s.tables.users, id).Some?
  {
    View(SelectUser(s.tables.users, id).value.state, HeldBy(s.pending, id))
  }

  function EventOf(c: Setup, s: Shared, step: Step, id: string): (e: Event) {
    match step
    case Read(h, i) => if i == id && Do(c, s, step).1 then Take(h) else Nothing
    case Write(h, _) =>
      if h !in s.pending || s.pending[h].name != id then Nothing
      else if Do(c, s, step).1 then Win(h) else Release(h)
    case Serve(_) => if IsReset(c, s, step, id) then Reset else Nothing
  }

  /** A write by a handler of `id` wins below the maximum, and where only changed rows count, on another state. */
  lemma WriteOnRow(counting: Counting, users: seq<UserRecord>, u: DBUser, pass: string, id: string, rec: UserRecord)
    requires Unique(users) && Backed(users, u)
    requires SelectUser(users, id) == Some(rec)
    requires u.name == id ==> rec.maxEnrollments > 0
    ensures var (users', result) := LoginEffect(counting, users, u, pass);
            && (u.name == id && result.LoggedIn? ==>
                  && u.state < rec.maxEnrollments && (counting.Changed? ==> rec.state != u.state + 1)
                  && SelectUser(users', id) == Some(rec.(state := u.state + 1)))
            && (!(u.name == id && result.LoggedIn?) ==> SelectUser(users', id) == Some(rec))
  {
    hide SelectUser, SetState, Affected;
    AffectedOfUnique(counting, users, u.name, u.state + 1);
    SelectAfterSetState(users, u.name, u.state + 1, id);
  }

  lemma HeldHandlers(pending: map<nat, DBUser>, id: string)
    ensures forall h :: h in HeldBy(pending, id) <==> h in pending && pending[h].name == id
    ensures forall h :: h in HeldBy(pending, id) ==> HeldBy(pending, id)[h] == pending[h].state
  {
  }

  lemma HeldAfterRead(pending: map<nat, DBUser>, h: nat, u: DBUser, id: string)
    requires h !in pending
    ensures HeldBy(pending[h := u], id) ==
            if u.name == id then HeldBy(pending, id)[h := u.state] else HeldBy(pending, id)
  {
  }

  lemma HeldAfterWrite(pending: map<nat, DBUser>, h: nat, id: string)
    requires h in pending
    ensures HeldBy(pending - {h}, id) ==
            if pending[h].name == id then HeldBy(pending, id) - {h} else HeldBy(pending, id)
  {
  }

  /** Each step of the cluster is an enabled event for each user with a positive maximum. */
  lemma StepIsEvent(c: Setup, s: Shared, step: Step, id: string, rec: UserRecord)
    requires Good(c, s) && SelectUser(s.tables.users, id) == Some(rec) && rec.maxEnrollments > 0
    ensures var e, s' := EventOf(c, s, step, id), Do(c, s, step).0;
            && Enabled(c.env.counting, c.handlers, rec.maxEnrollments, ViewOf(s, id), e)
            && SelectUser(s'.tables.users, id).Some?
            && SelectUser(s'.tables.users, id).value == rec.(state := SelectUser(s'.tables.users, id).value.state)
            && ViewOf(s', id) == Advance(ViewOf(s, id), e)
  {
    hide SelectUser, LoginEffect, Unique, HeldBy, Backed, Enrollment.Apply;
    HeldHandlers(s.pending, id);
    match step
    case Read(h, i) =>
      if h !in s.pending && SelectUser(s.tables.users, i).Some? {
        HeldAfterRead(s.pending, h, DBUserOf(SelectUser(s.tables.users, i).value), id);
      }
    case Write(h, pass) =>
      if h in s.pending {
        WriteOnRow(c.env.counting, s.tables.users, s.pending[h], pass, id, rec);
        HeldAfterWrite(s.pending, h, id);
      }
    case Serve(request) => Enrollment.ApplyOnRow(c.env, s.tables, request, id);
  }

  /** The account of one user: nothing before registration, then the range and the potential. */
  ghost predicate Account(c: Setup, s: Shared, id: string, wins: nat, resets: nat) {
    var rec := SelectUser(s.tables.users, id);
    && Good(c, s)
    && (rec.None? ==> wins == 0 && resets == 0)
    && (rec.Some? && rec.value.maxEnrollments > 0 ==>
          && InRange(c.handlers, rec.value.maxEnrollments, ViewOf(s, id), wins)
          && Paid(c.env.counting, c.handlers, rec.value.maxEnrollments, ViewOf(s, id), wins, resets))
  }

  lemma WriteWithoutRow(counting: Counting, users: seq<UserRecord>, u: DBUser, pass: string, id: string)
    requires SelectUser(users, id).None?
    ensures SelectUser(LoginEffect(counting, users, u, pass).0, id).None?
  {
    hide SelectUser, SetState, Affected;
    SelectAfterSetState(users, u.name, u.state + 1, id);
  }

  /** A step on an id without a row: it wins nothing, and a new row starts with no copies taken. */
  lemma StepBeforeRow(c: Setup, s: Shared, step: Step, id: string)
    requires Good(c, s) && SelectUser(s.tables.users, id).None?
    ensures !IsWin(c, s, step, id) && !IsReset(c, s, step, id)
    ensures var s' := Do(c, s, step).0;
            SelectUser(s'.tables.users, id).Some? ==> ViewOf(s', id) == View(0, map[])
  {
    hide SelectUser, LoginEffect, Unique, Enrollment.Apply;
    assert HeldBy(s.pending, id) == map[];
    match step
    case Read(h, i) =>
    case Write(h, pass) =>
      if h in s.pending {
        WriteWithoutRow(c.env.counting, s.tables.users, s.pending[h], pass, id);
      }
    case Serve(request) => Enrollment.ApplyOnRow(c.env, s.tables, request, id);
  }

  lemma AccountKept(c: Setup, s: Shared, step: Step, id: string, wins: nat, resets: nat)
    requires Account(c, s, id, wins, resets)
    ensures Account(c, Do(c, s, step).0, id,
                    wins + (if IsWin(c, s, step, id) then 1 else 0),
                    resets + (if IsReset(c, s, step, id) then 1 else 0))
  {
    hide Do, Paid, InRange, SelectUser, Unique, Backed;
    GoodKept(c, s, step);
    var rec, counting := SelectUser(s.tables.users, id), c.env.counting;
    if rec.None? {
      StepBeforeRow(c, s, step, id);
      var rec' := SelectUser(Do(c, s, step).0.tables.users, id);
      if rec'.Some? && rec'.value.maxEnrollments > 0 {
        RangeAtStart(c.handlers, rec'.value.maxEnrollments);
        PaidAtStart(counting, c.handlers, rec'.value.maxEnrollments);
      }
    } else if rec.value.maxEnrollments > 0 {
      var m, v, e := rec.value.maxEnrollments, ViewOf(s, id), EventOf(c, s, step, id);
      StepIsEvent(c, s, step, id, rec.value);
      RangeKept(counting, c.handlers, m, v, wins, e);
      PaidKept(counting, c.handlers, m, v, wins, resets, e);
    } else {
      RowKeepsMaximum(c, s, step, id);
    }
  }

  lemma RangeAtStart(c: nat, m: nat)
    ensures InRange(c, m, View(0, map[]), 0)
  {
  }

  lemma RowKeepsMaximum(c: Setup, s: Shared, step: Step, id: string)
    requires Unique(s.tables.users) && SelectUser(s.tables.users, id).Some?
    ensures var rec' := SelectUser(Do(c, s, step).0.tables.users, id);
            rec'.Some? && rec'.value.maxEnrollments == SelectUser(s.tables.users, id).value.maxEnrollments
  {
    hide SelectUser, SetState, Affected, Unique, Enrollment.Apply;
    match step
    case Read(h, i) =>
    case Write(h, pass) =>
      if h in s.pending {
        SelectAfterSetState(s.tables.users, s.pending[h].name, s.pending[h].state + 1, id);
      }
    case Serve(request) => Enrollment.ApplyOnRow(c.env, s.tables, request, id);
  }

  lemma {:induction false} AccountOfRun(c: Setup, s: Shared, run: seq<Step>, id: string, wins: nat, resets: nat)
    requires Account(c, s, id, wins, resets)
    ensures Account(c, Exec(c, s, run), id, wins + Wins(c, s, run, id), resets + Resets(c, s, run, id))
    decreases |run|
  {
    hide Account, Do, IsWin, IsReset;
    if run != [] {
      AccountKept(c, s, run[0], id, wins, resets);
      AccountOfRun(c, Do(c, s, run[0]).0, run[1..], id,
                   wins + (if IsWin(c, s, run[0], id) then 1 else 0),
                   resets + (if IsReset(c, s, run[0], id) then 1 else 0));
    }
  }

  /** The most logins of a user with maximum `m` whom `r` revocations by name hit. */
  function MostLogins(c: Setup, m: nat, r: nat): (n: int) {
    ClosedForm(c.env.counting, c.handlers, m) + r * ClosedForm(c.env.counting, c.handlers, m + 1)
  }

  lemma MostLoginsIsMost(c: Setup, m: nat, r: nat)
    requires m > 0
    ensures MostLogins(c, m, r) == Most(c.env.counting, c.handlers, m) + r * Most(c.env.counting, c.handlers, m + 1)
  {
    MostInClosedForm(c.env.counting, c.handlers, m);
    MostInClosedForm(c.env.counting, c.handlers, m + 1);
  }

  /**
   * Every interleaving of c handlers, for every user with a positive maximum m: the state column
   * stays between -1 and m and never exceeds the number of successful logins; and after r revocations
   * at most (c + m choose m) - 1 + r * ((c + m + 1 choose m + 1) - 1) logins have succeeded, less
   * (c + m - 2 choose m) + r * (c + m - 1 choose m + 1) for two or more handlers where only changed
   * rows count.
   */
  lemma InterleavedLoginsAreBounded(c: Setup, run: seq<Step>, id: string, rec: UserRecord)
    requires SelectUser(Exec(c, EMPTY, run).tables.users, id) == Some(rec) && rec.maxEnrollments > 0
    ensures -1 <= rec.state <= rec.maxEnrollments
    ensures rec.state <= Wins(c, EMPTY, run, id)
    ensures Wins(c, EMPTY, run, id) <= MostLogins(c, rec.maxEnrollments, Resets(c, EMPTY, run, id))
  {
    hide Paid, Most, MostLogins;
    var wins, resets := Wins(c, EMPTY, run, id), Resets(c, EMPTY, run, id);
    AccountOfRun(c, EMPTY, run, id, 0, 0);
    WinsBounded(c.env.counting, c.handlers, rec.maxEnrollments, ViewOf(Exec(c, EMPTY, run), id), wins, resets);
    MostLoginsIsMost(c, rec.maxEnrollments, resets);
  }

  // ----- The bound is attained -----

  /**
   * The run that wins most: each handler in turn keeps an old copy while the others exhaust the
   * rest, and then puts the register back. It starts `gap` below the maximum.
   */
  function Schedule(k: nat, gap: nat, id: string, pass: string): (run: seq<Step>)
    decreases k + gap
  {
    if k == 0 || gap == 0 then []
    else [Read(k - 1, id)] + Schedule(k - 1, gap, id, pass)
         + ([Write(k - 1, pass)] + Schedule(k, gap - 1, id, pass))
  }

  lemma {:induction false} ExecConcat(c: Setup, s: Shared, a: seq<Step>, b: seq<Step>, id: string)
    ensures Exec(c, s, a + b) == Exec(c, Exec(c, s, a), b)
    ensures Wins(c, s, a + b, id) == Wins(c, s, a, id) + Wins(c, Exec(c, s, a), b, id)
    ensures Resets(c, s, a + b, id) == Resets(c, s, a, id) + Resets(c, Exec(c, s, a), b, id)
    decreases |a|
  {
    hide Do, IsWin, IsReset;
    if a == [] {
      assert a + b == b;
    } else {
      assert (a + b)[1..] == a[1..] + b;
      ExecConcat(c, Do(c, s, a[0]).0, a[1..], b, id);
    }
  }

  lemma ConcatTwo(c: Setup, s: Shared, step: Step, run: seq<Step>, id: string)
    ensures Exec(c, s, [step] + run) == Exec(c, Do(c, s, step).0, run)
    ensures Wins(c, s, [step] + run, id) ==
            (if IsWin(c, s, step, id) then 1 else 0) + Wins(c, Do(c, s, step).0, run, id)
    ensures Resets(c, s, [step] + run, id) ==
            (if IsReset(c, s, step, id) then 1 else 0) + Resets(c, Do(c, s, step).0, run, id)
  {
    hide Do, IsWin, IsReset;
    assert ([step] + run)[1..] == run;
  }

  lemma ExecNothing(c: Setup, s: Shared, id: string)
    ensures Exec(c, s, []) == s && Wins(c, s, [], id) == 0 && Resets(c, s, [], id) == 0
  {
  }

  /** Who revokes `id` in the runs below. */
  function RevokerOf(id: string): (r: string) { id + "*" }

  /** The user `rec` has its row at `state`, the handlers below `k` are free, and there is a revoker. */
  ghost predicate Ready(s: Shared, rec: UserRecord, state: int, k: nat) {
    && Unique(s.tables.users) && SelectUser(s.tables.users, rec.name) == Some(rec.(state := state))
    && Enrollment.HasAttribute(s.tables.users, RevokerOf(rec.name), Enrollment.REVOKER)
    && forall h :: h in s.pending ==> h >= k
  }

  lemma ReadStep(c: Setup, s: Shared, rec: UserRecord, state: int, h: nat)
    requires Ready(s, rec, state, h + 1) && h < c.handlers
    ensures Do(c, s, Read(h, rec.name)).0 == s.(pending := s.pending[h := DBUserOf(rec.(state := state))])
    ensures !IsWin(c, s, Read(h, rec.name), rec.name)
    ensures Ready(Do(c, s, Read(h, rec.name)).0, rec, state, h)
    ensures forall k :: k in s.pending ==> k > h
  {
  }

  lemma ReadyAfterSetState(s: Shared, rec: UserRecord, now: int, k: nat, v: int, s': Shared)
    requires Ready(s, rec, now, k)
    requires s'.tables.users == SetState(s.tables.users, rec.name, v) && s'.pending.Keys <= s.pending.Keys
    ensures Ready(s', rec, v, k)
  {
    hide SelectUser, SetState, DBUserOf;
    Enrollment.SetStateKeepsNames(s.tables.users, rec.name, v);
    SelectAfterSetState(s.tables.users, rec.name, v, rec.name);
    Enrollment.SetStateKeepsAttributes(s.tables.users, rec.name, v, RevokerOf(rec.name), Enrollment.REVOKER);
  }

  /** A late write wins unless it puts back what is there and only changed rows count; either way it is there. */
  lemma WriteStep(c: Setup, s: Shared, rec: UserRecord, now: int, state: int, h: nat)
    requires Ready(s, rec, now, h) && h in s.pending && s.pending[h] == DBUserOf(rec.(state := state))
    requires -1 <= state < rec.maxEnrollments
    requires forall k :: k in s.pending && k != h ==> k > h
    ensures IsWin(c, s, Write(h, rec.pass), rec.name) <==> c.env.counting.Matched? || now != state + 1
    ensures Do(c, s, Write(h, rec.pass)).0.pending == s.pending - {h}
    ensures Ready(Do(c, s, Write(h, rec.pass)).0, rec, state + 1, h + 1)
  {
    hide SelectUser, SetState, Affected, Unique, Enrollment.HasAttribute;
    var s' := Do(c, s, Write(h, rec.pass)).0;
    AffectedOfUnique(c.env.counting, s.tables.users, rec.name, state + 1);
    ReadyAfterSetState(s, rec, now, h, state + 1, s');
  }

  /** The schedule is a read, an inner schedule, a write and the rest. */
  lemma ScheduleComposes(c: Setup, s: Shared, k: nat, gap: nat, id: string, pass: string)
    requires k > 0 && gap > 0
    ensures var run := Schedule(k, gap, id, pass);
            var read, inner, write, rest :=
              Read(k - 1, id), Schedule(k - 1, gap, id, pass), Write(k - 1, pass), Schedule(k, gap - 1, id, pass);
            var s1 := Do(c, s, read).0;
            var s2 := Exec(c, s1, inner);
            var s3 := Do(c, s2, write).0;
            && Exec(c, s, run) == Exec(c, s3, rest)
            && Wins(c, s, run, id) == (if IsWin(c, s, read, id) then 1 else 0) + Wins(c, s1, inner, id)
                                      + (if IsWin(c, s2, write, id) then 1 else 0) + Wins(c, s3, rest, id)
            && Resets(c, s, run, id) == Resets(c, s1, inner, id) + Resets(c, s3, rest, id)
  {
    hide Do, IsWin;
    var read, inner, write, rest :=
      Read(k - 1, id), Schedule(k - 1, gap, id, pass), Write(k - 1, pass), Schedule(k, gap - 1, id, pass);
    ConcatTwo(c, s, read, inner, id);
    ConcatTwo(c, Exec(c, Do(c, s, read).0, inner), write, rest, id);
    ExecConcat(c, s, [read] + inner, [write] + rest, id);
  }

  /** Where the schedule leaves the state: at the maximum, if there is a handler at all. */
  function EndState(k: nat, gap: nat, m: int): (state: int) { if k == 0 then m - gap else m }

  /** The schedule wins as many logins as there can be, and leaves all handlers as it found them. */
  lemma {:induction false} ScheduleWins(c: Setup, s: Shared, rec: UserRecord, k: nat, gap: nat)
    requires k <= c.handlers && rec.maxEnrollments > 0 && gap <= rec.maxEnrollments + 1
    requires Ready(s, rec, rec.maxEnrollments - gap, k)
    ensures var run := Schedule(k, gap, rec.name, rec.pass);
            var s' := Exec(c, s, run);
            && Ready(s', rec, EndState(k, gap, rec.maxEnrollments), k) && s'.pending == s.pending
            && Wins(c, s, run, rec.name) == Most(c.env.counting, k, gap)
            && Resets(c, s, run, rec.name) == 0
    decreases k + gap
  {
    hide Do, IsWin, DBUserOf, Most, Ready;
    MostStep(c.env.counting, k, gap);
    if k > 0 && gap > 0 {
      var id, m := rec.name, rec.maxEnrollments;
      ScheduleComposes(c, s, k, gap, id, rec.pass);
      var s1 := Do(c, s, Read(k - 1, id)).0;
      ReadStep(c, s, rec, m - gap, k - 1);
      ScheduleWins(c, s1, rec, k - 1, gap);
      var s2 := Exec(c, s1, Schedule(k - 1, gap, id, rec.pass));
      WriteStep(c, s2, rec, EndState(k - 1, gap, m), m - gap, k - 1);
      assert s.pending[k - 1 := DBUserOf(rec.(state := m - gap))] - {k - 1} == s.pending;
      ScheduleWins(c, Do(c, s2, Write(k - 1, rec.pass)).0, rec, k, gap - 1);
    }
  }

  // ----- The whole run, from empty tables -----

  /** A registration by the configuration of one who may revoke. */
  function RevokerFor(q: Enrollment.Registration): (r: Enrollment.Registration) {
    Enrollment.Registration(
      RevokerOf(q.id), q.typ, q.group, [Attribute(Enrollment.REVOKER, "true")], "", q.secret, q.random, 0)
  }

  /** The group, a revoker and the user are registered. */
  function Start(q: Enrollment.Registration): (run: seq<Step>) {
    [Serve(Enrollment.RegisterGroup(q.group, "")), Serve(Enrollment.Register(RevokerFor(q))),
     Serve(Enrollment.Register(q))]
  }

  function Round(c: Setup, q: Enrollment.Registration): (run: seq<Step>)
    requires q.max > 0
  {
    [Serve(Enrollment.RevokeByName(RevokerOf(q.id), q.id))]
    + Schedule(c.handlers, q.max + 1, q.id, Enrollment.SecretOf(q))
  }

  /** Start, exhaust the maximum, and then revoke and exhaust it again, `r` times. */
  function WorstRun(c: Setup, q: Enrollment.Registration, r: nat): (run: seq<Step>)
    requires q.max > 0
  {
    if r == 0 then Start(q) + Schedule(c.handlers, q.max, q.id, Enrollment.SecretOf(q))
    else WorstRun(c, q, r - 1) + Round(c, q)
  }

  /** The registrations of the start succeed one after the other. */
  lemma StartServes(env: Enrollment.Env, q: Enrollment.Registration)
    requires q.registrar == ""
    ensures var rows := [GroupRecord(q.group, "")];
            var t1, t2 := Enrollment.Tables([], rows), Enrollment.Tables([Enrollment.RowOf(RevokerFor(q))], rows);
            && Enrollment.Apply(env, Enrollment.Tables([], []), Enrollment.RegisterGroup(q.group, "")).0 == t1
            && Enrollment.Apply(env, t1, Enrollment.Register(RevokerFor(q))).0 == t2
            && Enrollment.Apply(env, t2, Enrollment.Register(q)).0
               == t2.(users := t2.users + [Enrollment.RowOf(q)])
  {
    assert |RevokerOf(q.id)| != |q.id|;
    assert HasGroup([GroupRecord(q.group, "")], q.group);
    var t := Enrollment.Tables([Enrollment.RowOf(RevokerFor(q))], [GroupRecord(q.group, "")]);
    assert t.users[1..] == [];
  }

  lemma RevokerMayRevoke(q: Enrollment.Registration, users: seq<UserRecord>)
    requires users == [Enrollment.RowOf(RevokerFor(q)), Enrollment.RowOf(q)]
    ensures Enrollment.HasAttribute(users, RevokerOf(q.id), Enrollment.REVOKER)
  {
    var attrs := RevokerFor(q).attrs;
    assert AttributeMap(attrs, 1) == AttributeMap(attrs, 0)[Enrollment.REVOKER := "true"];
  }

  lemma StartingRows(q: Enrollment.Registration, s: Shared, k: nat)
    requires s.tables.users == [Enrollment.RowOf(RevokerFor(q)), Enrollment.RowOf(q)] && s.pending == map[]
    ensures Ready(s, Enrollment.RowOf(q), 0, k)
  {
    hide Enrollment.HasAttribute;
    assert |RevokerOf(q.id)| != |q.id|;
    RevokerMayRevoke(q, s.tables.users);
    var revoker, row := Enrollment.RowOf(RevokerFor(q)), Enrollment.RowOf(q);
    SelectAfterInsert([revoker], row, q.id);
    assert s.tables.users == [revoker] + [row] && row.(state := 0) == row;
    assert [revoker][1..] == [];
  }

  lemma StartIsReady(c: Setup, q: Enrollment.Registration)
    requires q.registrar == ""
    ensures Ready(Exec(c, EMPTY, Start(q)), Enrollment.RowOf(q), 0, c.handlers)
    ensures Wins(c, EMPTY, Start(q), q.id) == 0 && Resets(c, EMPTY, Start(q), q.id) == 0
  {
    hide Enrollment.Apply, Ready, Exec, Wins, Resets;
    StartServes(c.env, q);
    var run := Start(q);
    var s1 := Do(c, EMPTY, run[0]).0;
    var s2 := Do(c, s1, run[1]).0;
    var s3 := Do(c, s2, run[2]).0;
    assert run == [run[0]] + ([run[1]] + ([run[2]] + []));
    ConcatTwo(c, EMPTY, run[0], [run[1]] + ([run[2]] + []), q.id);
    ConcatTwo(c, s1, run[1], [run[2]] + [], q.id);
    ConcatTwo(c, s2, run[2], [], q.id);
    ExecNothing(c, s3, q.id);
    StartingRows(q, s3, c.handlers);
  }

  lemma RevokeStep(c: Setup, s: Shared, rec: UserRecord, now: int)
    requires Ready(s, rec, now, c.handlers)
    ensures var step := Serve(Enrollment.RevokeByName(RevokerOf(rec.name), rec.name));
            && IsReset(c, s, step, rec.name) && !IsWin(c, s, step, rec.name)
            && Ready(Do(c, s, step).0, rec, -1, c.handlers)
  {
    hide SelectUser, SetState, Unique, Enrollment.HasAttribute;
    var step := Serve(Enrollment.RevokeByName(RevokerOf(rec.name), rec.name));
    ReadyAfterSetState(s, rec, now, c.handlers, -1, Do(c, s, step).0);
  }

  lemma FirstRound(c: Setup, q: Enrollment.Registration)
    requires q.max > 0 && q.registrar == ""
    ensures var run := WorstRun(c, q, 0);
            && Ready(Exec(c, EMPTY, run), Enrollment.RowOf(q), EndState(c.handlers, q.max, q.max), c.handlers)
            && Resets(c, EMPTY, run, q.id) == 0
            && Wins(c, EMPTY, run, q.id) == Most(c.env.counting, c.handlers, q.max)
  {
    hide Do, IsWin, IsReset, Most, Schedule, Ready, Exec, Wins, Resets, Start;
    var run := Schedule(c.handlers, q.max, q.id, Enrollment.SecretOf(q));
    StartIsReady(c, q);
    ScheduleWins(c, Exec(c, EMPTY, Start(q)), Enrollment.RowOf(q), c.handlers, q.max);
    ExecConcat(c, EMPTY, Start(q), run, q.id);
  }

  lemma NextRound(c: Setup, s: Shared, q: Enrollment.Registration, now: int)
    requires q.max > 0 && Ready(s, Enrollment.RowOf(q), now, c.handlers)
    ensures var run := Round(c, q);
            && Ready(Exec(c, s, run), Enrollment.RowOf(q), EndState(c.handlers, q.max + 1, q.max), c.handlers)
            && Resets(c, s, run, q.id) == 1
            && Wins(c, s, run, q.id) == Most(c.env.counting, c.handlers, q.max + 1)
  {
    hide Do, IsWin, IsReset, Most, Schedule, Ready, Exec, Wins, Resets;
    var rec, step := Enrollment.RowOf(q), Serve(Enrollment.RevokeByName(RevokerOf(q.id), q.id));
    RevokeStep(c, s, rec, now);
    ScheduleWins(c, Do(c, s, step).0, rec, c.handlers, q.max + 1);
    ConcatTwo(c, s, step, Schedule(c.handlers, q.max + 1, q.id, Enrollment.SecretOf(q)), q.id);
  }

  /** The state that the run ends in. */
  function WorstEnd(c: Setup, q: Enrollment.Registration, r: nat): (state: int)
    requires q.max > 0
  {
    EndState(c.handlers, if r == 0 then q.max else q.max + 1, q.max)
  }

  lemma {:induction false} WorstRunWins(c: Setup, q: Enrollment.Registration, r: nat)
    requires q.max > 0 && q.registrar == ""
    ensures var run := WorstRun(c, q, r);
            && Ready(Exec(c, EMPTY, run), Enrollment.RowOf(q), WorstEnd(c, q, r), c.handlers)
            && Resets(c, EMPTY, run, q.id) == r
            && Wins(c, EMPTY, run, q.id) ==
               Most(c.env.counting, c.handlers, q.max) + r * Most(c.env.counting, c.handlers, q.max + 1)
  {
    hide Do, IsWin, IsReset, Most, Schedule, Ready, Exec, Wins, Resets, Round, Start;
    if r == 0 {
      FirstRound(c, q);
    } else {
      var before := WorstRun(c, q, r - 1);
      var s := Exec(c, EMPTY, before);
      WorstRunWins(c, q, r - 1);
      NextRound(c, s, q, WorstEnd(c, q, r - 1));
      ExecConcat(c, EMPTY, before, Round(c, q), q.id);
      var more := Most(c.env.counting, c.handlers, q.max + 1);
      assert (r - 1) * more + more == r * more;
    }
  }

  /** The run leaves `id` registered with maximum `m`, and revokes it `r` times by name. */
  ghost predicate Revokes(c: Setup, run: seq<Step>, id: string, m: int, r: nat) {
    var rec := SelectUser(Exec(c, EMPTY, run).tables.users, id);
    rec.Some? && rec.value.maxEnrollments == m && Resets(c, EMPTY, run, id) == r
  }

  /**
   * For every number of handlers, both ways of counting rows, every user that the configuration
   * registers with a positive maximum, and every r: some run reaches the bound above.
   */
  lemma BoundIsAttained(c: Setup, q: Enrollment.Registration, r: nat)
    requires q.max > 0 && q.registrar == ""
    ensures Revokes(c, WorstRun(c, q, r), q.id, q.max, r)
    ensures Wins(c, EMPTY, WorstRun(c, q, r), q.id) == MostLogins(c, q.max, r)
  {
    hide Do, IsWin, IsReset, Most, Exec, Wins, Resets, WorstRun, MostLogins, SelectUser, Unique;
    WorstRunWins(c, q, r);
    MostLoginsIsMost(c, q.max, r);
  }

  /**
   * When the configured maximum is one: for every number of handlers c, every maximum m > 0 and every
   * number r of revocations by name, no run logs a user in more than m times if and only if there is
   * no handler, or no revocation and either a single handler or, where only changed rows count, m is 1.
   */
  lemma MaximumHoldsIff(c: Setup, id: string, m: nat, r: nat)
    requires m > 0
    ensures (forall run :: Revokes(c, run, id, m, r) ==> Wins(c, EMPTY, run, id) <= m)
            <==> c.handlers == 0 || (r == 0 && (c.handlers == 1 || (c.env.counting.Changed? && m == 1)))
  {
    hide Do, IsWin, IsReset, Most, Exec, Wins, Resets, WorstRun, MostLogins;
    MostLoginsIsMost(c, m, r);
    MostVersusMaximum(c.env.counting, c.handlers, m, r);
    forall run | Revokes(c, run, id, m, r)
      ensures Wins(c, EMPTY, run, id) <= MostLogins(c, m, r)
    {
      InterleavedLoginsAreBounded(c, run, id, SelectUser(Exec(c, EMPTY, run).tables.users, id).value);
    }
    var q := Enrollment.Registration(id, "", "", [], "", "", "", m);
    BoundIsAttained(c, q, r);
  }

  /** Two handlers, a maximum of two, no revocation: five logins, or four where only changed rows count. */
  lemma TwoHandlersMaximumTwo(env: Enrollment.Env, q: Enrollment.Registration)
    requires q.max == 2 && q.registrar == ""
    ensures Resets(Setup(2, env), EMPTY, WorstRun(Setup(2, env), q, 0), q.id) == 0
    ensures Wins(Setup(2, env), EMPTY, WorstRun(Setup(2, env), q, 0), q.id) == if env.counting.Matched? then 5 else 4
  {
    hide Do, IsWin, IsReset, Exec, Wins, Resets, WorstRun, ClosedForm;
    BoundIsAttained(Setup(2, env), q, 0);
    assert Choose(4, 2) == 6 && Choose(2, 2) == 1 by {
      assert Choose(2, 1) == 2 && Choose(3, 1) == 3 && Choose(2, 2) == 1 && Choose(3, 2) == 3;
    }
    assert ClosedForm(env.counting, 2, 2) == if env.counting.Matched? then 5 else 4 by {
      ClosedFormAt(env.counting, 2, 2);
    }
  }

  lemma ClosedFormAt(counting: Counting, k: nat, gap: nat)
    requires k >= 2
    ensures ClosedForm(counting, k, gap) ==
            Choose(k + gap, gap) - 1 - if counting.Changed? then Choose(k + gap - 2, gap) else 0
  {
  }
}
