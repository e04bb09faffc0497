/** Filling the groups table and then the users table at startup: cli/server/bootstrap.go. */
module Bootstrap {
  import opened Common
  import opened Registry
  import opened Enrollment

  /** A value of the parsed configuration under "groups". */
  datatype Config = Strings(names: seq<string>) | Table(children: map<string, Config>)

  /** GetStringSlice and GetStringMapString read a value of the other kind as empty. */
  function StringSlice(node: Config): (names: seq<string>) { if node.Strings? then node.names else [] }

  function StringMap(node: Config): (children: map<string, Config>) { if node.Table? then node.children else map[] }

  // ----- What the configuration asks for -----

  /** The rows configured for a group of a given parent and for all groups below it. */
  ghost function Rows(name: string, parent: string, node: Config, level: nat): (rows: set<GroupRecord>)
    decreases level, 0
  {
    {GroupRecord(name, parent)} +
    if level == 0 then RowsUpTo(name, StringSlice(node), |StringSlice(node)|)
    else RowsIn(name, StringMap(node), StringMap(node).Keys, level - 1)
  }

  /** The rows for the given children of one table. */
  ghost function RowsIn(parent: string, children: map<string, Config>, keys: set<string>, level: nat)
    : (rows: set<GroupRecord>)
    requires keys <= children.Keys
    decreases level, 1
  {
    set k, row | k in keys && row in Rows(k, parent, children[k], level) :: row
  }

  /** The rows for the first `n` strings of a list. */
  ghost function RowsUpTo(parent: string, names: seq<string>, n: nat): (rows: set<GroupRecord>)
    requires n <= |names|
  {
    set i | 0 <= i < n :: GroupRecord(names[i], parent)
  }

  // ----- The groups table as a forest -----

  function Names(groups: seq<GroupRecord>): (names: set<string>) {
    set i | 0 <= i < |groups| :: groups[i].name
  }

  /** Row `i` has an empty parent, or an earlier row as its parent. */
  predicate ParentIsEarlier(groups: seq<GroupRecord>, i: nat)
    requires i < |groups|
  {
    groups[i].parent == "" || exists j :: 0 <= j < i && groups[j].name == groups[i].parent
  }

  /** Names are unique, and each parent is empty or an earlier row. */
  predicate Forest(groups: seq<GroupRecord>) {
    && (forall i, j :: 0 <= i < j < |groups| ==> groups[i].name != groups[j].name)
    && (forall i :: 0 <= i < |groups| ==> ParentIsEarlier(groups, i))
  }

  lemma ForestInsert(groups: seq<GroupRecord>, name: string, parent: string)
    requires Forest(groups) && name !in Names(groups) && ParentKnown(groups, parent)
    ensures Forest(groups + [GroupRecord(name, parent)])
  {
    var g := groups + [GroupRecord(name, parent)];
    forall i | 0 <= i < |g|
      ensures ParentIsEarlier(g, i)
    {
      if i < |groups| {
        assert ParentIsEarlier(groups, i);
        if groups[i].parent != "" {
          var j :| 0 <= j < i && groups[j].name == groups[i].parent;
          assert g[j].name == g[i].parent;
        }
      } else if parent != "" {
        var j :| 0 <= j < |groups| && groups[j].name == parent;
        assert g[j].name == g[i].parent;
      }
    }
  }

  lemma NamesInsert(groups: seq<GroupRecord>, row: GroupRecord)
    ensures Names(groups + [row]) == Names(groups) + {row.name}
  {
    var g := groups + [row];
    assert g[|groups|] == row;
    assert forall i :: 0 <= i < |groups| ==> g[i] == groups[i];
  }

  /** A parent that a new row may name: none, or a row of the table. */
  predicate ParentKnown(groups: seq<GroupRecord>, parent: string) { parent == "" || parent in Names(groups) }

  /** The table gained only rows asked for, and every name asked for is there. */
  ghost predicate Grown(before: seq<GroupRecord>, after: seq<GroupRecord>, rows: set<GroupRecord>) {
    && before <= after
    && (forall i :: |before| <= i < |after| ==> after[i] in rows)
    && (forall row :: row in rows ==> row.name in Names(after))
  }

  lemma NamesStay(before: seq<GroupRecord>, after: seq<GroupRecord>)
    requires before <= after
    ensures Names(before) <= Names(after)
  {
    assert forall i :: 0 <= i < |before| ==> after[i] == before[i];
  }

  lemma GrownTwice(
      a: seq<GroupRecord>, b: seq<GroupRecord>, c: seq<GroupRecord>, rows: set<GroupRecord>, more: set<GroupRecord>)
    requires Grown(a, b, rows) && Grown(b, c, more)
    ensures Grown(a, c, rows + more)
  {
    hide Names;
    NamesStay(b, c);
  }

  lemma ParentStaysKnown(before: seq<GroupRecord>, after: seq<GroupRecord>, rows: set<GroupRecord>, parent: string)
    requires Grown(before, after, rows)
    ensures ParentKnown(before, parent) ==> ParentKnown(after, parent)
    ensures (exists row :: row in rows && row.name == parent) ==> ParentKnown(after, parent)
  {
    hide Names;
    NamesStay(before, after);
  }

  method RegisterGroup(acc: Accessor, name: string, parentName: string) returns (ok: bool)
    modifies acc`groups
    ensures ok <==> name !in Names(old(acc.groups))
    ensures acc.groups == if ok then old(acc.groups) + [GroupRecord(name, parentName)] else old(acc.groups)
    ensures Grown(old(acc.groups), acc.groups, {GroupRecord(name, parentName)})
    ensures Forest(old(acc.groups)) && ParentKnown(old(acc.groups), parentName) ==> Forest(acc.groups)
  {
    var existing := acc.GetGroup(name);
    if existing.Some? {
      return false;
    }
    NamesInsert(acc.groups, GroupRecord(name, parentName));
    if Forest(acc.groups) && ParentKnown(acc.groups, parentName) {
      ForestInsert(acc.groups, name, parentName);
    }
    acc.InsertGroup(name, parentName);
    return true;
  }

  method PopulateAffiliations(acc: Accessor, parent: string, names: seq<string>)
    modifies acc`groups
    ensures Grown(old(acc.groups), acc.groups, RowsUpTo(parent, names, |names|))
    ensures Forest(old(acc.groups)) && ParentKnown(old(acc.groups), parent) ==> Forest(acc.groups)
  {
    hide Forest, Names;
    for ci := 0 to |names|
      invariant Grown(old(acc.groups), acc.groups, RowsUpTo(parent, names, ci))
      invariant Forest(old(acc.groups)) && ParentKnown(old(acc.groups), parent) ==> Forest(acc.groups)
    {
      ghost var before, rows := acc.groups, RowsUpTo(parent, names, ci);
      var _ := RegisterGroup(acc, names[ci], parent);
      ParentStaysKnown(old(acc.groups), before, rows, parent);
      GrownTwice(old(acc.groups), before, acc.groups, rows, {GroupRecord(names[ci], parent)});
      assert RowsUpTo(parent, names, ci + 1) == rows + {GroupRecord(names[ci], parent)};
    }
  }

  method PopulateGroup(acc: Accessor, name: string, parent: string, node: Config, level: nat)
    modifies acc`groups
    ensures Grown(old(acc.groups), acc.groups, Rows(name, parent, node, level))
    ensures Forest(old(acc.groups)) && ParentKnown(old(acc.groups), parent) ==> Forest(acc.groups)
    decreases level, 1
  {
    hide Forest, Names, Grown, ParentKnown, RowsUpTo, RowsIn;
    ghost var row, below := {GroupRecord(name, parent)}, {};
    var _ := RegisterGroup(acc, name, parent);
    ghost var between := acc.groups;
    ParentStaysKnown(old(acc.groups), between, row, name);
    assert GroupRecord(name, parent) in row;
    if level == 0 {
      var names := if node.Strings? then node.names else [];
      PopulateAffiliations(acc, name, names);
      below := RowsUpTo(name, names, |names|);
    } else {
      var children := if node.Table? then node.children else map[];
      PopulateChildren(acc, name, children, level - 1);
      below := RowsIn(name, children, children.Keys, level - 1);
    }
    GrownTwice(old(acc.groups), between, acc.groups, row, below);
  }

  /** The loop over a table: `:|` stands for the order in which Go visits a map. */
  method PopulateChildren(acc: Accessor, parent: string, children: map<string, Config>, level: nat)
    modifies acc`groups
    ensures Grown(old(acc.groups), acc.groups, RowsIn(parent, children, children.Keys, level))
    ensures Forest(old(acc.groups)) && ParentKnown(old(acc.groups), parent) ==> Forest(acc.groups)
    decreases level, 2
  {
    hide Forest, Names, ParentKnown;
    var rest := children.Keys;
    while rest != {}
      invariant rest <= children.Keys
      invariant Grown(old(acc.groups), acc.groups, RowsIn(parent, children, children.Keys - rest, level))
      invariant Forest(old(acc.groups)) && ParentKnown(old(acc.groups), parent) ==> Forest(acc.groups)
      decreases rest
    {
      var childName :| childName in rest;
      ghost var before, done := acc.groups, children.Keys - rest;
      ghost var rows := RowsIn(parent, children, done, level);
      ghost var more := Rows(childName, parent, children[childName], level);
      PopulateGroup(acc, childName, parent, children[childName], level);
      ParentStaysKnown(old(acc.groups), before, rows, parent);
      GrownTwice(old(acc.groups), before, acc.groups, rows, more);
      rest := rest - {childName};
      assert children.Keys - rest == done + {childName};
      RowsOfOneMore(parent, children, done, childName, level);
    }
    assert children.Keys - rest == children.Keys;
  }

  lemma RowsOfOneMore(parent: string, children: map<string, Config>, done: set<string>, k: string, level: nat)
    requires done <= children.Keys && k in children
    ensures RowsIn(parent, children, done + {k}, level)
         == RowsIn(parent, children, done, level) + Rows(k, parent, children[k], level)
  {
  }

  /**
   * For any configuration and any iteration order: only configured rows are added, under their
   * configured parents, every configured name is in the table, and a forest stays a forest.
   */
  method PopulateGroupsTable(acc: Accessor, config: map<string, Config>)
    modifies acc`groups
    ensures Grown(old(acc.groups), acc.groups, RowsIn("", config, config.Keys, 1))
    ensures Forest(old(acc.groups)) ==> Forest(acc.groups)
  {
    PopulateChildren(acc, "", config, 1);
  }

  // ----- Walking up -----

  /** A walk from row to row: each names the next as its parent, and the last has none. */
  ghost predicate IsWalk(groups: seq<GroupRecord>, rows: seq<nat>) {
    && |rows| >= 1 && (forall k :: 0 <= k < |rows| ==> rows[k] < |groups|)
    && (forall k :: 0 < k < |rows| ==> groups[rows[k - 1]].parent == groups[rows[k]].name)
    && groups[rows[|rows| - 1]].parent == ""
  }

  predicate Descends(rows: seq<nat>) { forall k :: 0 < k < |rows| ==> rows[k] < rows[k - 1] }

  /** In a forest the walk from every row to its parents ends, each time at an earlier row. */
  lemma {:induction false} WalksEnd(groups: seq<GroupRecord>, i: nat)
    requires Forest(groups) && i < |groups|
    ensures exists rows :: IsWalk(groups, rows) && rows[0] == i && Descends(rows) && |rows| <= i + 1
  {
    assert ParentIsEarlier(groups, i);
    if groups[i].parent == "" {
      assert IsWalk(groups, [i]) && Descends([i]);
    } else {
      var j :| 0 <= j < i && groups[j].name == groups[i].parent;
      WalksEnd(groups, j);
      var rest :| IsWalk(groups, rest) && rest[0] == j && Descends(rest) && |rest| <= j + 1;
      var rows := [i] + rest;
      assert rows[|rows| - 1] == rest[|rest| - 1];
      assert IsWalk(groups, rows) && rows[0] == i && Descends(rows);
    }
  }

  // ----- The configured users -----

  datatype UserConfig = UserConfig(pass: string, typ: string, group: string, attrs: seq<Attribute>, random: string)

  function RegistrationOf(name: string, u: UserConfig, max: int): (q: Registration) {
    Registration(name, u.typ, u.group, u.attrs, "", u.pass, u.random, max)
  }

  /** The row that the configuration gives a name, where it gives one. */
  function ConfiguredRow(
      lower: Lower, groups: seq<GroupRecord>, config: map<string, UserConfig>, max: int, name: string)
    : (r: Option<UserRecord>)
  {
    if name !in config then None
    else
      var u := config[name];
      if lower(u.typ) in {"client", "peer"} && !HasGroup(groups, u.group) then None
      else Some(UserRecord(name, if u.pass != "" then u.pass else u.random, u.typ, u.group, u.attrs, 0, max))
  }

  /**
   * Registers every configured user, ignoring failures: in whatever order, the users found afterwards
   * are those found before and the configured ones whose type needs no group or whose group exists.
   */
  method PopulateUsersTable(acc: Accessor, lower: Lower, config: map<string, UserConfig>, max: int)
    modifies acc`users
    ensures forall name :: SelectUser(acc.users, name) ==
              if SelectUser(old(acc.users), name).Some? then SelectUser(old(acc.users), name)
              else ConfiguredRow(lower, acc.groups, config, max, name)
    ensures Reachable(Env(lower, acc.counting), Tables(old(acc.users), acc.groups)) ==>
              Reachable(Env(lower, acc.counting), Tables(acc.users, acc.groups))
  {
    hide SelectUser, HasGroup, Apply, Reachable;
    var rest := config.Keys;
    while rest != {}
      invariant rest <= config.Keys
      invariant forall name :: SelectUser(acc.users, name) ==
                  if SelectUser(old(acc.users), name).Some? || name in rest then SelectUser(old(acc.users), name)
                  else ConfiguredRow(lower, acc.groups, config, max, name)
      invariant Reachable(Env(lower, acc.counting), Tables(old(acc.users), acc.groups)) ==>
                  Reachable(Env(lower, acc.counting), Tables(acc.users, acc.groups))
      decreases rest
    {
      var name :| name in rest;
      ghost var before := acc.users;
      var q := RegistrationOf(name, config[name], max);
      var r := RegisterUser(acc, lower, q);
      rest := rest - {name};
      if Reachable(Env(lower, acc.counting), Tables(before, acc.groups)) {
        StepStaysReachable(Env(lower, acc.counting), Tables(before, acc.groups), Register(q));
      }
      forall other
        ensures r.Ok? ==> (SelectUser(acc.users, other) ==
                if SelectUser(before, other).Some? then SelectUser(before, other)
                else if name == other then Some(RowOf(q)) else None)
      {
        SelectAfterInsert(before, RowOf(q), other);
      }
    }
  }

  lemma ForestPrefix(groups: seq<GroupRecord>)
    requires Forest(groups) && groups != []
    ensures Forest(groups[..|groups| - 1]) && !HasGroup(groups[..|groups| - 1], groups[|groups| - 1].name)
  {
    var rest := groups[..|groups| - 1];
    forall i | 0 <= i < |rest|
      ensures ParentIsEarlier(rest, i)
    {
      assert ParentIsEarlier(groups, i) && rest[i] == groups[i];
    }
  }

  /** A table that grew to a forest grew by registrations of groups. */
  lemma {:induction false} ForestIsReachable(
      env: Env, users: seq<UserRecord>, before: seq<GroupRecord>, groups: seq<GroupRecord>)
    requires Reachable(env, Tables(users, before)) && before <= groups && Forest(groups)
    ensures Reachable(env, Tables(users, groups))
    decreases |groups|
  {
    hide Reachable, Forest, HasGroup;
    if before != groups {
      var rest, last := groups[..|groups| - 1], groups[|groups| - 1];
      ForestPrefix(groups);
      ForestIsReachable(env, users, before, rest);
      StepStaysReachable(env, Tables(users, rest), Step.RegisterGroup(last.name, last.parent));
      assert groups == rest + [last] && GroupRecord(last.name, last.parent) == last;
    }
  }

  /**
   * At startup the groups are there before any user is registered. What results is a state that the
   * steps of a run reach, so all that holds in every run holds from bootstrap on.
   */
  method Initialize(acc: Accessor, lower: Lower, groups: map<string, Config>, users: map<string, UserConfig>, max: int)
    modifies acc
    ensures Forest(old(acc.groups)) ==> Forest(acc.groups)
    ensures Grown(old(acc.groups), acc.groups, RowsIn("", groups, groups.Keys, 1))
    ensures forall name :: SelectUser(acc.users, name) ==
              if SelectUser(old(acc.users), name).Some? then SelectUser(old(acc.users), name)
              else ConfiguredRow(lower, acc.groups, users, max, name)
    ensures Forest(old(acc.groups)) && Reachable(Env(lower, acc.counting), Tables(old(acc.users), old(acc.groups))) ==>
              Reachable(Env(lower, acc.counting), Tables(acc.users, acc.groups))
  {
    hide Reachable;
    PopulateGroupsTable(acc, groups);
    if Forest(old(acc.groups)) && Reachable(Env(lower, acc.counting), Tables(old(acc.users), old(acc.groups))) {
      ForestIsReachable(Env(lower, acc.counting), old(acc.users), old(acc.groups), acc.groups);
    }
    PopulateUsersTable(acc, lower, users, max);
  }
}
