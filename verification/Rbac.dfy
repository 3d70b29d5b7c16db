/** Roles: the in-memory cache, the tables behind it, and what a user may do. */
module Rbac {
  import opened GoText

  const ADMIN: Text := "admin"
  const VIEWER: Text := "viewer"
  const PUBLISHER: Text := "publisher"
  const ROLE_PREFIX: Text := "role_"
  const UNDERSCORE: Text := "_"

  predicate IsSystemId(id: Text) {
    id == ADMIN || id == VIEWER || id == PUBLISHER
  }

  /** The id CreateRole generates. */
  function RoleId(name: Text): Text {
    ROLE_PREFIX + ReplaceAll(name, ' ', UNDERSCORE)
  }

  lemma RoleIdIsNotSystem(name: Text)
    ensures !IsSystemId(RoleId(name))
  {
    assert RoleId(name)[0] == 'r';
    assert ADMIN[0] == 'a' && VIEWER[0] == 'v' && PUBLISHER[0] == 'p';
  }

  lemma {:induction false} ReplaceAllByte(s: Text, target: byte, fill: byte)
    ensures |ReplaceAll(s, target, [fill])| == |s|
    ensures forall i | 0 <= i < |s| :: ReplaceAll(s, target, [fill])[i] == if s[i] == target then fill else s[i]
  {
    if s != [] {
      ReplaceAllByte(s[1..], target, fill);
    }
  }

  /** An id is "role_" and the name with an underscore for each space. */
  lemma RoleIdMeans(name: Text)
    ensures |RoleId(name)| == 5 + |name| && RoleId(name)[..5] == "role_"
    ensures forall i | 0 <= i < |name| :: RoleId(name)[5 + i] == if name[i] == ' ' then '_' else name[i]
  {
    ReplaceAllByte(name, ' ', '_');
    assert UNDERSCORE == ['_'];
  }

  predicate SpaceLike(c: byte) {
    c == ' ' || c == '_'
  }

  /** Two names share an id, and so one role, exactly when they differ in nothing but spaces for underscores. */
  lemma SameRoleIff(a: Text, b: Text)
    ensures RoleId(a) == RoleId(b) <==>
      |a| == |b| && forall i | 0 <= i < |a| :: a[i] == b[i] || (SpaceLike(a[i]) && SpaceLike(b[i]))
  {
    RoleIdMeans(a);
    RoleIdMeans(b);
    if RoleId(a) == RoleId(b) {
      forall i | 0 <= i < |a|
        ensures a[i] == b[i] || (SpaceLike(a[i]) && SpaceLike(b[i]))
      {
        assert RoleId(a)[5 + i] == RoleId(b)[5 + i];
      }
    }
    if |a| == |b| && forall i | 0 <= i < |a| :: a[i] == b[i] || (SpaceLike(a[i]) && SpaceLike(b[i])) {
      assert RoleId(a)[..5] == RoleId(b)[..5];
      forall i | 0 <= i < |RoleId(a)|
        ensures RoleId(a)[i] == RoleId(b)[i]
      {
        if i < 5 {
          assert RoleId(a)[..5][i] == RoleId(b)[..5][i];
        } else {
          assert a[i - 5] == b[i - 5] || (SpaceLike(a[i - 5]) && SpaceLike(b[i - 5]));
          assert RoleId(a)[5 + (i - 5)] == RoleId(b)[5 + (i - 5)];
        }
      }
    }
  }

  // ----- values -----

  datatype Role = Role(name: Text, description: Text, permissions: seq<Text>, isSystem: bool)

  datatype RoleRow = RoleRow(name: Text, description: Text, isSystem: bool)

  /** roles by id, and role_permissions, whose primary key is the pair. */
  datatype Tables = Tables(roles: map<Text, RoleRow>, rolePermissions: set<(Text, Text)>)

  type Cache = map<Text, Role>

  datatype State = State(cache: Cache, tables: Tables)

  /** The insert loop of SaveRole: statements is how many more the connection lasts. */
  function InsertPermissions(pairs: set<(Text, Text)>, id: Text, permissions: seq<Text>,
                             statements: nat): (set<(Text, Text)>, bool)
    decreases |permissions|
  {
    if permissions == [] then (pairs, true)
    else if statements == 0 || (id, permissions[0]) in pairs then (pairs, false)
    else InsertPermissions(pairs + {(id, permissions[0])}, id, permissions[1..], statements - 1)
  }

  function WithoutRole(pairs: set<(Text, Text)>, id: Text): set<(Text, Text)> {
    set p | p in pairs && p.0 != id
  }

  /** SaveRole runs its statements one by one, outside any transaction. */
  function Save(t: Tables, id: Text, r: Role, statements: nat): (Tables, bool) {
    if statements == 0 then (t, false)
    else
      var row := RoleRow(r.name, r.description, if id in t.roles then t.roles[id].isSystem else r.isSystem);
      var upserted := t.(roles := t.roles[id := row]);
      if statements == 1 then (upserted, false)
      else
        var (pairs, ok) := InsertPermissions(WithoutRole(t.rolePermissions, id), id, r.permissions, statements - 2);
        (upserted.(rolePermissions := pairs), ok)
  }

  /** Each operation with how many database statements succeed before the connection fails. */
  datatype Event =
    | Create(name: Text, description: Text, permissions: seq<Text>, statements: nat)
    | Update(id: Text, name: Text, description: Text, permissions: seq<Text>, statements: nat)
    | Delete(id: Text, statements: nat)
    | AddPermission(id: Text, permission: Text, statements: nat)
    | RemovePermission(id: Text, permission: Text, statements: nat)

  /** A role that exists and may be changed. */
  predicate Mutable(cache: Cache, id: Text) {
    id in cache && !cache[id].isSystem
  }

  /** A changed role goes into the cache first; a failed save is not rolled back. */
  function Change(s: State, id: Text, r: Role, statements: nat): (State, bool) {
    var (tables, ok) := Save(s.tables, id, r, statements);
    (State(s.cache[id := r], tables), ok)
  }

  function RemoveAll(permissions: seq<Text>, p: Text): seq<Text> {
    if permissions == [] then []
    else (if permissions[0] == p then [] else [permissions[0]]) + RemoveAll(permissions[1..], p)
  }

  /** The new state and whether the call returned without error. */
  function Step(s: State, e: Event): (State, bool) {
    match e
    case Create(name, description, permissions, statements) =>
      var id := RoleId(name);
      var (changed, ok) := Change(s, id, Role(name, description, permissions, false), statements);
      (if ok then changed else changed.(cache := changed.cache - {id}), ok)
    case Update(id, name, description, permissions, statements) =>
      if !Mutable(s.cache, id) then (s, false)
      else Change(s, id, s.cache[id].(name := name, description := description, permissions := permissions), statements)
    case Delete(id, statements) =>
      if !Mutable(s.cache, id) then (s, false)
      else
        var tables := if statements > 0 then s.tables.(roles := s.tables.roles - {id}) else s.tables;
        (State(s.cache - {id}, tables), statements > 0)
    case AddPermission(id, p, statements) =>
      if !Mutable(s.cache, id) then (s, false)
      else if p in s.cache[id].permissions then (s, true)
      else Change(s, id, s.cache[id].(permissions := s.cache[id].permissions + [p]), statements)
    case RemovePermission(id, p, statements) =>
      if !Mutable(s.cache, id) then (s, false)
      else if p !in s.cache[id].permissions then (s, true)
      else Change(s, id, s.cache[id].(permissions := RemoveAll(s.cache[id].permissions, p)), statements)
  }

  lemma StepOfCreate(s: State, name: Text, description: Text, permissions: seq<Text>, statements: nat)
    ensures var after, id := Step(s, Create(name, description, permissions, statements)), RoleId(name);
      var r := Role(name, description, permissions, false);
      && after.1 == Save(s.tables, id, r, statements).1
      && after.0.tables == Save(s.tables, id, r, statements).0
      && after.0.cache == if after.1 then s.cache[id := r] else s.cache - {id}
  {
    var r := Role(name, description, permissions, false);
    assert s.cache[RoleId(name) := r] - {RoleId(name)} == s.cache - {RoleId(name)};
  }

  /** What Step does with a change to an existing custom role. */
  lemma StepOfChange(s: State, e: Event)
    requires !e.Create? && Mutable(s.cache, e.id)
    ensures var id, r := e.id, s.cache[e.id];
      && (e.Update? ==>
            Step(s, e) == Change(s, id, Role(e.name, e.description, e.permissions, false), e.statements))
      && (e.AddPermission? && e.permission !in r.permissions ==>
            Step(s, e) == Change(s, id, r.(permissions := r.permissions + [e.permission]), e.statements))
      && (e.RemovePermission? && e.permission in r.permissions ==>
            Step(s, e) == Change(s, id, r.(permissions := RemoveAll(r.permissions, e.permission)), e.statements))
      && (e.AddPermission? && e.permission in r.permissions ==> Step(s, e) == (s, true))
      && (e.RemovePermission? && e.permission !in r.permissions ==> Step(s, e) == (s, true))
  {
    hide Change, RemoveAll;
  }

  lemma StepOfDelete(s: State, id: Text, statements: nat)
    requires Mutable(s.cache, id)
    ensures var after := Step(s, Delete(id, statements));
      && after.1 == (statements > 0) && after.0.cache == s.cache - {id}
      && after.0.tables == if statements > 0 then s.tables.(roles := s.tables.roles - {id}) else s.tables
  {
  }

  lemma StepOfRefused(s: State, e: Event)
    requires !e.Create? && !Mutable(s.cache, e.id)
    ensures Step(s, e) == (s, false)
  {
  }

  function Play(s: State, events: seq<Event>): State
    decreases |events|
  {
    if events == [] then s else Play(Step(s, events[0]).0, events[1..])
  }

  // ----- system roles -----

  /** The three system roles are cached, marked, and nothing else is. */
  predicate SystemRolesCached(cache: Cache) {
    && ADMIN in cache && VIEWER in cache && PUBLISHER in cache
    && forall id | id in cache :: cache[id].isSystem <==> IsSystemId(id)
  }

  lemma StepKeepsSystemRoles(s: State, e: Event)
    requires SystemRolesCached(s.cache)
    ensures SystemRolesCached(Step(s, e).0.cache)
    ensures forall id | IsSystemId(id) :: Step(s, e).0.cache[id] == s.cache[id]
  {
    hide Save;
    if e.Create? {
      RoleIdIsNotSystem(e.name);
    }
  }

  /**
   Over every run of role operations, with database statements failing anywhere, the three
   system roles stay cached with the permissions they started with.
   */
  lemma {:induction false} SystemRolesNeverChange(s: State, events: seq<Event>)
    requires SystemRolesCached(s.cache)
    ensures SystemRolesCached(Play(s, events).cache)
    ensures forall id | IsSystemId(id) :: Play(s, events).cache[id] == s.cache[id]
    decreases |events|
  {
    if events != [] {
      StepKeepsSystemRoles(s, events[0]);
      SystemRolesNeverChange(Step(s, events[0]).0, events[1..]);
    }
  }

  // ----- cache and tables -----

  function PermissionsOf(t: Tables, id: Text): set<Text> {
    set pair | pair in t.rolePermissions && pair.0 == id :: pair.1
  }

  function Elements(s: seq<Text>): set<Text> {
    set x | x in s
  }

  /** Each cached custom role is the row of that id, with the table's permissions for it, and no row lacks one. */
  ghost predicate Agree(s: State) {
    && (forall id :: Mutable(s.cache, id) <==> id in s.tables.roles)
    && (forall id | id in s.tables.roles ::
          s.tables.roles[id] == RoleRow(s.cache[id].name, s.cache[id].description, false) &&
          PermissionsOf(s.tables, id) == Elements(s.cache[id].permissions))
  }

  /** role_permissions holds no rows of a role that is gone. */
  predicate NoOrphans(t: Tables) {
    forall pair | pair in t.rolePermissions :: pair.0 in t.roles
  }

  lemma {:induction false} InsertedPermissions(pairs: set<(Text, Text)>, id: Text, permissions: seq<Text>,
                                               statements: nat)
    requires InsertPermissions(pairs, id, permissions, statements).1
    ensures InsertPermissions(pairs, id, permissions, statements).0 == pairs + (set p | p in permissions :: (id, p))
    decreases |permissions|
  {
    if permissions != [] {
      InsertedPermissions(pairs + {(id, permissions[0])}, id, permissions[1..], statements - 1);
      assert permissions == [permissions[0]] + permissions[1..];
    }
  }

  /** A save that succeeds leaves exactly the given role in the tables and every other id alone. */
  lemma SavedRole(t: Tables, id: Text, r: Role, statements: nat)
    requires Save(t, id, r, statements).1
    ensures var after := Save(t, id, r, statements).0;
      && after.roles
         == t.roles[id := RoleRow(r.name, r.description, if id in t.roles then t.roles[id].isSystem else r.isSystem)]
      && after.rolePermissions == WithoutRole(t.rolePermissions, id) + (set p | p in r.permissions :: (id, p))
  {
    InsertedPermissions(WithoutRole(t.rolePermissions, id), id, r.permissions, statements - 2);
  }

  /** Whether the inserts of one save get through: no duplicate, and a connection that lasts. */
  predicate Savable(permissions: seq<Text>, statements: nat) {
    statements >= 2 + |permissions| && NoDuplicates(permissions)
  }

  lemma {:induction false} InsertsSucceedIff(pairs: set<(Text, Text)>, id: Text, permissions: seq<Text>,
                                             statements: nat)
    ensures InsertPermissions(pairs, id, permissions, statements).1 <==>
      statements >= |permissions| && NoDuplicates(permissions) && forall p | p in permissions :: (id, p) !in pairs
    decreases |permissions|
  {
    if permissions != [] {
      var first, rest := permissions[0], permissions[1..];
      assert permissions == [first] + rest;
      if statements > 0 && (id, first) !in pairs {
        InsertsSucceedIff(pairs + {(id, first)}, id, rest, statements - 1);
        FirstIsNoDuplicate(first, rest);
      }
    }
  }

  lemma FirstIsNoDuplicate(first: Text, rest: seq<Text>)
    ensures NoDuplicates([first] + rest) <==> first !in rest && NoDuplicates(rest)
  {
    var all := [first] + rest;
    assert forall i | 0 <= i < |rest| :: all[i + 1] == rest[i];
    if NoDuplicates(all) {
      forall i | 0 <= i < |rest|
        ensures rest[i] != first
      {
        assert all[0] != all[i + 1];
      }
      forall i, j | 0 <= i < j < |rest|
        ensures rest[i] != rest[j]
      {
        assert all[i + 1] != all[j + 1];
      }
    }
  }

  /** A save succeeds exactly when the connection lasts for all statements and no permission is listed twice. */
  lemma SaveSucceedsIff(t: Tables, id: Text, r: Role, statements: nat)
    ensures Save(t, id, r, statements).1 <==> Savable(r.permissions, statements)
  {
    if statements >= 2 {
      InsertsSucceedIff(WithoutRole(t.rolePermissions, id), id, r.permissions, statements - 2);
    }
  }

  lemma {:induction false} InsertsTouchOnly(pairs: set<(Text, Text)>, id: Text, permissions: seq<Text>, statements: nat)
    ensures forall other, p | other != id ::
              (other, p) in InsertPermissions(pairs, id, permissions, statements).0 <==> (other, p) in pairs
    decreases |permissions|
  {
    if permissions != [] && statements > 0 && (id, permissions[0]) !in pairs {
      InsertsTouchOnly(pairs + {(id, permissions[0])}, id, permissions[1..], statements - 1);
    }
  }

  /** However far a save gets, it touches no other role. */
  lemma SaveTouchesOnly(t: Tables, id: Text, r: Role, statements: nat, other: Text)
    requires other != id
    ensures other in Save(t, id, r, statements).0.roles <==> other in t.roles
    ensures other in t.roles ==> Save(t, id, r, statements).0.roles[other] == t.roles[other]
    ensures forall p :: (other, p) in Save(t, id, r, statements).0.rolePermissions <==> (other, p) in t.rolePermissions
  {
    if statements >= 2 {
      InsertsTouchOnly(WithoutRole(t.rolePermissions, id), id, r.permissions, statements - 2);
    }
  }

  /** Exactly when each call returns without error; a role that is missing or a system role is left as it was. */
  lemma SucceedsIff(s: State, e: Event)
    ensures Step(s, e).1 <==>
      match e
      case Create(_, _, permissions, statements) => Savable(permissions, statements)
      case Update(id, _, _, permissions, statements) =>
        id in s.cache && !s.cache[id].isSystem && Savable(permissions, statements)
      case Delete(id, statements) => id in s.cache && !s.cache[id].isSystem && statements > 0
      case AddPermission(id, p, statements) =>
        id in s.cache && !s.cache[id].isSystem &&
        (p in s.cache[id].permissions || Savable(s.cache[id].permissions + [p], statements))
      case RemovePermission(id, p, statements) =>
        id in s.cache && !s.cache[id].isSystem &&
        (p !in s.cache[id].permissions || Savable(RemoveAll(s.cache[id].permissions, p), statements))
    ensures !e.Create? && (e.id !in s.cache || s.cache[e.id].isSystem) ==> Step(s, e).0 == s
  {
    hide Save, Savable, RemoveAll;
    match e {
      case Create(name, description, permissions, statements) =>
        SaveSucceedsIff(s.tables, RoleId(name), Role(name, description, permissions, false), statements);
      case Update(id, name, description, permissions, statements) =>
        if Mutable(s.cache, id) {
          var r := s.cache[id].(name := name, description := description, permissions := permissions);
          SaveSucceedsIff(s.tables, id, r, statements);
        }
      case Delete(_, _) =>
      case AddPermission(id, p, statements) =>
        if Mutable(s.cache, id) {
          var r := s.cache[id].(permissions := s.cache[id].permissions + [p]);
          SaveSucceedsIff(s.tables, id, r, statements);
        }
      case RemovePermission(id, p, statements) =>
        if Mutable(s.cache, id) {
          var r := s.cache[id].(permissions := RemoveAll(s.cache[id].permissions, p));
          SaveSucceedsIff(s.tables, id, r, statements);
        }
    }
  }

  /**
   What a call leaves in the cache when the database fails it: a new role is forgotten, even one
   that was there under the same id; a deleted one stays forgotten; any other change stays.
   */
  lemma FailedCallLeaves(s: State, e: Event)
    requires !Step(s, e).1 && (!e.Create? ==> e.id in s.cache && !s.cache[e.id].isSystem)
    ensures Step(s, e).0.cache ==
      match e
      case Create(name, _, _, _) => s.cache - {RoleId(name)}
      case Update(id, name, description, permissions, _) => s.cache[id := Role(name, description, permissions, false)]
      case Delete(id, _) => s.cache - {id}
      case AddPermission(id, p, _) => s.cache[id := s.cache[id].(permissions := s.cache[id].permissions + [p])]
      case RemovePermission(id, p, _) =>
        s.cache[id := s.cache[id].(permissions := RemoveAll(s.cache[id].permissions, p))]
    ensures e.Delete? ==> Step(s, e).0.tables == s.tables
  {
    hide Save, RemoveAll;
    if e.Create? {
      StepOfCreate(s, e.name, e.description, e.permissions, e.statements);
    }
  }

  /** A call that succeeds leaves the row it was asked for, or none after a deletion, and every other row. */
  lemma StoredRowAsRequested(s: State, e: Event)
    requires SystemRolesCached(s.cache) && Agree(s) && Step(s, e).1
    ensures var roles := Step(s, e).0.tables.roles;
      && (e.Create? ==> RoleId(e.name) in roles && roles[RoleId(e.name)] == RoleRow(e.name, e.description, false))
      && (e.Update? ==> e.id in roles && roles[e.id] == RoleRow(e.name, e.description, false))
      && (e.Delete? ==> e.id !in roles)
      && (e.AddPermission? || e.RemovePermission? ==> roles == s.tables.roles)
      && forall other | other != (if e.Create? then RoleId(e.name) else e.id) ::
           (other in roles <==> other in s.tables.roles) &&
           (other in roles ==> roles[other] == s.tables.roles[other])
  {
    hide Save, RemoveAll, RoleId;
    match e {
      case Create(name, description, permissions, statements) =>
        RoleIdIsNotSystem(name);
        SavedRole(s.tables, RoleId(name), Role(name, description, permissions, false), statements);
      case Update(id, name, description, permissions, statements) =>
        var r := s.cache[id].(name := name, description := description, permissions := permissions);
        SavedRole(s.tables, id, r, statements);
      case Delete(_, _) =>
      case AddPermission(id, p, statements) =>
        if p !in s.cache[id].permissions {
          SavedRole(s.tables, id, s.cache[id].(permissions := s.cache[id].permissions + [p]), statements);
        }
      case RemovePermission(id, p, statements) =>
        if p in s.cache[id].permissions {
          SavedRole(s.tables, id, s.cache[id].(permissions := RemoveAll(s.cache[id].permissions, p)), statements);
        }
    }
  }

  lemma PermissionsAfterSave(pairs: set<(Text, Text)>, id: Text, permissions: seq<Text>, other: Text,
                             roles: map<Text, RoleRow>)
    ensures PermissionsOf(Tables(roles, WithoutRole(pairs, id) + (set p | p in permissions :: (id, p))), other)
         == if other == id then Elements(permissions) else PermissionsOf(Tables(roles, pairs), other)
  {
    var after := WithoutRole(pairs, id) + (set p | p in permissions :: (id, p));
    forall x
      ensures x in PermissionsOf(Tables(roles, after), other) <==>
              x in if other == id then Elements(permissions) else PermissionsOf(Tables(roles, pairs), other)
    {
      assert (other, x) in after <==> if other == id then x in permissions else (other, x) in pairs;
    }
  }

  lemma ChangeKeepsAgree(s: State, id: Text, r: Role, statements: nat)
    requires Agree(s) && !r.isSystem && (id in s.cache ==> !s.cache[id].isSystem) && Change(s, id, r, statements).1
    ensures Agree(Change(s, id, r, statements).0)
    ensures NoOrphans(s.tables) ==> NoOrphans(Change(s, id, r, statements).0.tables)
  {
    hide Save;
    var after := Change(s, id, r, statements).0;
    SavedRole(s.tables, id, r, statements);
    assert id in s.cache ==> Mutable(s.cache, id);
    forall other | other in after.tables.roles
      ensures after.tables.roles[other] == RoleRow(after.cache[other].name, after.cache[other].description, false)
      ensures PermissionsOf(after.tables, other) == Elements(after.cache[other].permissions)
    {
      PermissionsAfterSave(s.tables.rolePermissions, id, r.permissions, other, after.tables.roles);
      assert PermissionsOf(Tables(after.tables.roles, s.tables.rolePermissions), other)
          == PermissionsOf(s.tables, other);
      assert other != id ==> other in s.tables.roles;
    }
  }

  lemma DeleteKeepsAgree(s: State, id: Text)
    requires Agree(s) && Mutable(s.cache, id)
    ensures Agree(Step(s, Delete(id, 1)).0)
  {
    var after := Step(s, Delete(id, 1)).0;
    forall other | other in after.tables.roles
      ensures PermissionsOf(after.tables, other) == Elements(after.cache[other].permissions)
    {
      assert PermissionsOf(after.tables, other) == PermissionsOf(s.tables, other);
    }
  }

  /** Every call that returns without error keeps the cached custom roles equal to their rows. */
  lemma StepKeepsAgree(s: State, e: Event)
    requires SystemRolesCached(s.cache) && Agree(s) && Step(s, e).1
    ensures Agree(Step(s, e).0)
    ensures NoOrphans(s.tables) && !e.Delete? ==> NoOrphans(Step(s, e).0.tables)
  {
    hide Save, Agree, NoOrphans;
    match e {
      case Create(name, description, permissions, statements) =>
        RoleIdIsNotSystem(name);
        ChangeKeepsAgree(s, RoleId(name), Role(name, description, permissions, false), statements);
      case Update(id, name, description, permissions, statements) =>
        var r := s.cache[id].(name := name, description := description, permissions := permissions);
        ChangeKeepsAgree(s, id, r, statements);
      case Delete(id, statements) => DeleteKeepsAgree(s, id);
      case AddPermission(id, p, statements) =>
        if p !in s.cache[id].permissions {
          ChangeKeepsAgree(s, id, s.cache[id].(permissions := s.cache[id].permissions + [p]), statements);
        }
      case RemovePermission(id, p, statements) =>
        if p in s.cache[id].permissions {
          ChangeKeepsAgree(s, id, s.cache[id].(permissions := RemoveAll(s.cache[id].permissions, p)), statements);
        }
    }
  }

  /** What a call asks role_permissions to hold for a role afterwards. */
  function Requested(s: State, e: Event, id: Text): set<Text> {
    var now := PermissionsOf(s.tables, id);
    match e
    case Create(name, _, permissions, _) => if id == RoleId(name) then Elements(permissions) else now
    case Update(i, _, _, permissions, _) => if id == i then Elements(permissions) else now
    case Delete(_, _) => now
    case AddPermission(i, p, _) => if id == i then now + {p} else now
    case RemovePermission(i, p, _) => if id == i then now - {p} else now
  }

  lemma {:induction false} RemoveAllElements(permissions: seq<Text>, p: Text)
    ensures Elements(RemoveAll(permissions, p)) == Elements(permissions) - {p}
  {
    if permissions != [] {
      RemoveAllElements(permissions[1..], p);
      var head, rest := permissions[0], RemoveAll(permissions[1..], p);
      assert permissions == [head] + permissions[1..];
      forall x
        ensures x in RemoveAll(permissions, p) <==> x in permissions && x != p
      {
        assert x in rest <==> x in Elements(rest);
        assert x in permissions[1..] <==> x in Elements(permissions[1..]);
      }
    }
  }

  lemma ChangedPermissions(s: State, id: Text, r: Role, statements: nat, other: Text)
    requires Save(s.tables, id, r, statements).1
    ensures PermissionsOf(Save(s.tables, id, r, statements).0, other)
         == if other == id then Elements(r.permissions) else PermissionsOf(s.tables, other)
  {
    hide Save;
    SavedRole(s.tables, id, r, statements);
    var after := Save(s.tables, id, r, statements).0;
    PermissionsAfterSave(s.tables.rolePermissions, id, r.permissions, other, after.roles);
    var pairs := set p | p in r.permissions :: (id, p);
    assert after == Tables(after.roles, WithoutRole(s.tables.rolePermissions, id) + pairs);
    assert PermissionsOf(Tables(after.roles, s.tables.rolePermissions), other) == PermissionsOf(s.tables, other);
  }

  /** A call that succeeds gives the stored role the permissions it asked for, and changes no other role. */
  lemma StoredAsRequested(s: State, e: Event, id: Text)
    requires SystemRolesCached(s.cache) && Agree(s) && Step(s, e).1
    ensures PermissionsOf(Step(s, e).0.tables, id) == Requested(s, e, id)
  {
    hide Save;
    match e {
      case Create(name, description, permissions, statements) =>
        ChangedPermissions(s, RoleId(name), Role(name, description, permissions, false), statements, id);
      case Update(i, name, description, permissions, statements) =>
        ChangedPermissions(s, i, s.cache[i].(name := name, description := description, permissions := permissions),
                           statements, id);
      case Delete(i, _) =>
        assert PermissionsOf(Step(s, e).0.tables, id) == PermissionsOf(s.tables, id);
      case AddPermission(i, p, statements) =>
        assert i in s.tables.roles;
        if p !in s.cache[i].permissions {
          ChangedPermissions(s, i, s.cache[i].(permissions := s.cache[i].permissions + [p]), statements, id);
        } else {
          assert p in Elements(s.cache[i].permissions);
        }
      case RemovePermission(i, p, statements) =>
        assert i in s.tables.roles;
        RemoveAllElements(s.cache[i].permissions, p);
        if p in s.cache[i].permissions {
          ChangedPermissions(s, i, s.cache[i].(permissions := RemoveAll(s.cache[i].permissions, p)), statements, id);
        } else {
          assert p !in Elements(s.cache[i].permissions);
        }
    }
  }

  predicate AllSucceed(s: State, events: seq<Event>)
    decreases |events|
  {
    events == [] || (Step(s, events[0]).1 && AllSucceed(Step(s, events[0]).0, events[1..]))
  }

  /** Only system roles cached, and empty tables. */
  predicate Initial(s: State) {
    SystemRolesCached(s.cache) && s.tables == Tables(map[], {}) && forall id | id in s.cache :: IsSystemId(id)
  }

  lemma {:induction false} RunKeepsAgree(s: State, events: seq<Event>)
    requires SystemRolesCached(s.cache) && Agree(s) && AllSucceed(s, events)
    ensures Agree(Play(s, events))
    ensures NoOrphans(s.tables) && (forall e | e in events :: !e.Delete?) ==> NoOrphans(Play(s, events).tables)
    decreases |events|
  {
    if events != [] {
      hide Agree, NoOrphans, Step;
      StepKeepsSystemRoles(s, events[0]);
      StepKeepsAgree(s, events[0]);
      RunKeepsAgree(Step(s, events[0]).0, events[1..]);
      assert events[0] in events && forall e | e in events[1..] :: e in events;
    }
  }

  /**
   From no custom roles, while every call succeeds, the cached custom roles are the roles
   table and each has the permissions role_permissions lists for it.
   */
  lemma CacheAgreesWithTables(s: State, events: seq<Event>)
    requires Initial(s) && AllSucceed(s, events)
    ensures Agree(Play(s, events))
  {
    RunKeepsAgree(s, events);
  }

  /**
   role_permissions has no foreign key to roles, so a deletion leaves the role's rows behind:
   the whole table stays equal to the cache exactly when the deleted role had none.
   */
  lemma DeleteLeavesOrphans(s: State, id: Text)
    requires Agree(s) && NoOrphans(s.tables) && Mutable(s.cache, id)
    ensures NoOrphans(Step(s, Delete(id, 1)).0.tables) <==> s.cache[id].permissions == []
  {
    var after := Step(s, Delete(id, 1)).0;
    assert PermissionsOf(s.tables, id) == Elements(s.cache[id].permissions);
    if s.cache[id].permissions == [] {
      forall pair | pair in after.tables.rolePermissions
        ensures pair.0 in after.tables.roles
      {
        assert pair.0 == id ==> pair.1 in PermissionsOf(s.tables, id);
      }
    } else {
      var p := s.cache[id].permissions[0];
      assert p in Elements(s.cache[id].permissions) && p in PermissionsOf(s.tables, id);
      assert (id, p) in after.tables.rolePermissions;
    }
  }

  /** One role with one permission, created and deleted: its permission row is still there. */
  lemma OrphanAfterDelete(s: State, name: Text, permission: Text)
    requires Initial(s)
    ensures var end := Play(s, [Create(name, [], [permission], 3), Delete(RoleId(name), 1)]);
      RoleId(name) !in end.cache && (RoleId(name), permission) in end.tables.rolePermissions
  {
    var created := Create(name, [], [permission], 3);
    RoleIdIsNotSystem(name);
    assert InsertPermissions({}, RoleId(name), [permission], 1) == ({(RoleId(name), permission)}, true) by {
      assert [permission][1..] == [];
      assert {} + {(RoleId(name), permission)} == {(RoleId(name), permission)};
    }
    assert WithoutRole({}, RoleId(name)) == {};
    assert Step(s, created).1 && (RoleId(name), permission) in Step(s, created).0.tables.rolePermissions;
    var deleted := Delete(RoleId(name), 1);
    var s1 := Step(s, created).0;
    var s2 := Step(s1, deleted).0;
    assert Mutable(s1.cache, RoleId(name)) && RoleId(name) !in s2.cache;
    assert [created, deleted][1..] == [deleted] && [deleted][1..] == [];
    assert Play(s2, []) == s2;
    assert Play(s1, [deleted]) == s2;
  }

  // ----- what a user may do -----

  predicate RoleHas(cache: Cache, id: Text, permission: Text) {
    id in cache && permission in cache[id].permissions
  }

  predicate HasPermission(cache: Cache, userRoles: seq<Text>, permission: Text) {
    exists id | id in userRoles :: RoleHas(cache, id, permission)
  }

  predicate NoDuplicates(s: seq<Text>) {
    forall i, j | 0 <= i < j < |s| :: s[i] != s[j]
  }

  lemma HasPermissionSnoc(cache: Cache, userRoles: seq<Text>, id: Text)
    ensures forall p ::
              HasPermission(cache, userRoles + [id], p) <==> HasPermission(cache, userRoles, p) || RoleHas(cache, id, p)
  {
    forall p
      ensures HasPermission(cache, userRoles + [id], p) <==> HasPermission(cache, userRoles, p) || RoleHas(cache, id, p)
    {
      assert forall r :: r in userRoles + [id] <==> r in userRoles || r == id;
    }
  }

  // ----- the objects -----

  /** A role as the cache and its callers share it; id and isSystem are never assigned again. */
  class RoleDefinition {
    const id: Text
    const isSystem: bool
    var name: Text
    var description: Text
    var permissions: seq<Text>

    constructor (id: Text, name: Text, description: Text, permissions: seq<Text>, isSystem: bool)
      ensures this.id == id && this.isSystem == isSystem
      ensures Value() == Role(name, description, permissions, isSystem)
    {
      this.id, this.name, this.description := id, name, description;
      this.permissions, this.isSystem := permissions, isSystem;
    }

    function Value(): Role
      reads this
    {
      Role(name, description, permissions, isSystem)
    }
  }

  const ADMIN_NAME: Text := "Administrator"
  const VIEWER_NAME: Text := "Viewer"
  const PUBLISHER_NAME: Text := "Publisher"
  const ADMIN_PERMISSIONS: seq<Text> := [
    "artifact:read", "artifact:write", "artifact:delete", "artifact:sign", "artifact:search", "artifact:replicate",
    "registry:read", "registry:write", "registry:delete", "user:read", "user:write", "user:admin", "audit:read",
    "system:read", "system:write"]
  const VIEWER_PERMISSIONS: seq<Text> := ["artifact:read", "artifact:search", "registry:read"]
  const PUBLISHER_PERMISSIONS: seq<Text> := ["artifact:read", "artifact:write", "artifact:sign", "artifact:search"]

  /** staticRoles; about gives the descriptions, which no decision reads. */
  function StaticRoles(about: Text -> Text): Cache {
    map[ADMIN := Role(ADMIN_NAME, about(ADMIN), ADMIN_PERMISSIONS, true),
        VIEWER := Role(VIEWER_NAME, about(VIEWER), VIEWER_PERMISSIONS, true),
        PUBLISHER := Role(PUBLISHER_NAME, about(PUBLISHER), PUBLISHER_PERMISSIONS, true)]
  }

  /** staticPermissions: everything there is to be allowed. */
  const STATIC_PERMISSIONS: seq<Text> := [
    "artifact:read", "artifact:write", "artifact:delete", "artifact:sign", "artifact:search", "artifact:replicate",
    "registry:read", "registry:write", "registry:delete", "user:read", "user:write", "user:admin", "audit:read",
    "system:read", "system:write"]

  /** Administrators may do everything; the other two system roles only part of it. */
  lemma AdminMayDoEverything(about: Text -> Text)
    ensures ADMIN in StaticRoles(about) && StaticRoles(about)[ADMIN].permissions == STATIC_PERMISSIONS
  {
    SystemIdsDistinct();
  }

  lemma SystemIdsDistinct()
    ensures ADMIN != VIEWER && VIEWER != PUBLISHER && PUBLISHER != ADMIN
  {
  }

  lemma StaticRolesAreInitial(about: Text -> Text)
    ensures Initial(State(StaticRoles(about), Tables(map[], {})))
  {
    SystemIdsDistinct();
  }

  /** A start over existing tables: nothing loads the stored roles into the cache. */
  function Restarted(about: Text -> Text, stored: Tables): State {
    State(StaticRoles(about), stored)
  }

  /** After a restart cache and tables agree exactly when no custom role is stored. */
  lemma RestartAgreesIff(about: Text -> Text, stored: Tables)
    ensures Agree(Restarted(about, stored)) <==> stored.roles == map[]
  {
    hide StaticRoles;
    StaticRolesAreInitial(about);
    var s := Restarted(about, stored);
    if stored.roles != map[] {
      var id :| id in stored.roles;
      assert !Mutable(s.cache, id);
    }
  }

  /**
   A role stored before a restart grants nothing and cannot be changed after it, whatever
   permissions its rows still list, until a role of the same name is created again.
   */
  lemma StoredRoleIsLost(about: Text -> Text, stored: Tables, id: Text, e: Event, permission: Text)
    requires id in stored.roles && !IsSystemId(id)
    requires !e.Create? && e.id == id
    ensures !HasPermission(Restarted(about, stored).cache, [id], permission)
    ensures Step(Restarted(about, stored), e) == (Restarted(about, stored), false)
  {
    hide StaticRoles;
    StaticRolesAreInitial(about);
  }

  class Manager {
    var roleCache: map<Text, RoleDefinition>
    var tables: Tables

    /** The only objects an operation may change. */
    ghost function CustomRoles(): set<RoleDefinition>
      reads this`roleCache
    {
      set id | id in roleCache && !roleCache[id].isSystem :: roleCache[id]
    }

    function Cached(): Cache
      reads this`roleCache, roleCache.Values
    {
      map id | id in roleCache :: roleCache[id].Value()
    }

    function Current(): State
      reads this, roleCache.Values
    {
      State(Cached(), tables)
    }

    /** Every role is cached under its own id, so no two entries share an object. */
    ghost predicate Valid()
      reads this`roleCache
    {
      forall id | id in roleCache :: roleCache[id].id == id
    }

    /** New: the static roles, over whatever the tables hold. */
    constructor (about: Text -> Text, stored: Tables)
      ensures Valid() && fresh(roleCache.Values)
      ensures Current() == Restarted(about, stored)
    {
      hide StaticRoles;
      roleCache, tables := map[], stored;
      new;
      LoadStaticRoles(StaticRoles(about));
    }

    method LoadStaticRoles(roles: Cache)
      requires roleCache == map[]
      modifies this`roleCache
      ensures Valid() && fresh(roleCache.Values)
      ensures Cached() == roles
    {
      var left := roles.Keys;
      while left != {}
        invariant Valid() && fresh(roleCache.Values)
        invariant left <= roles.Keys && Cached() == map id | id in roles && id !in left :: roles[id]
        decreases left
      {
        var id :| id in left;
        CacheRole(id, roles[id]);
        left := left - {id};
      }
      assert Cached() == roles;
    }

    /** Upsert, clear, then one INSERT per permission, each statement on its own. */
    method SaveRole(id: Text, r: Role, statements: nat) returns (ok: bool)
      modifies this`tables
      ensures (tables, ok) == Save(old(tables), id, r, statements)
    {
      if statements == 0 {
        return false;
      }
      var isSystem := if id in tables.roles then tables.roles[id].isSystem else r.isSystem;
      tables := tables.(roles := tables.roles[id := RoleRow(r.name, r.description, isSystem)]);
      if statements == 1 {
        return false;
      }
      tables := tables.(rolePermissions := WithoutRole(tables.rolePermissions, id));
      ghost var start := tables;
      for i := 0 to |r.permissions|
        invariant tables.roles == start.roles && i <= statements - 2
        invariant InsertPermissions(start.rolePermissions, id, r.permissions, statements - 2)
               == InsertPermissions(tables.rolePermissions, id, r.permissions[i..], statements - 2 - i)
      {
        var pair := (id, r.permissions[i]);
        assert r.permissions[i..][1..] == r.permissions[i + 1..];
        if statements - 2 == i || pair in tables.rolePermissions {
          return false;
        }
        tables := tables.(rolePermissions := tables.rolePermissions + {pair});
      }
      return true;
    }

    method CreateRole(name: Text, description: Text, permissions: seq<Text>, statements: nat) returns (ok: bool)
      requires Valid()
      modifies this
      ensures Valid()
      ensures (Current(), ok) == Step(old(Current()), Create(name, description, permissions, statements))
    {
      hide Save, Step, Cached;
      StepOfCreate(Current(), name, description, permissions, statements);
      var id := RoleId(name);
      CacheRole(id, Role(name, description, permissions, false));
      ok := SaveRole(id, Role(name, description, permissions, false), statements);
      if !ok {
        Forget(id);
        assert old(Cached())[id := Role(name, description, permissions, false)] - {id} == old(Cached()) - {id};
      }
    }

    method CacheRole(id: Text, r: Role)
      requires Valid()
      modifies this`roleCache
      ensures Valid() && Cached() == old(Cached())[id := r]
      ensures forall o | o in roleCache.Values :: o in old(roleCache).Values || fresh(o)
    {
      var role := new RoleDefinition(id, r.name, r.description, r.permissions, r.isSystem);
      roleCache := roleCache[id := role];
    }

    method Forget(id: Text)
      requires Valid()
      modifies this`roleCache
      ensures Valid() && Cached() == old(Cached()) - {id}
    {
      roleCache := roleCache - {id};
    }

    /** Whether the role is there and custom, as every mutator asks first. */
    method MayChange(id: Text) returns (may: bool)
      ensures may == Mutable(Cached(), id)
      ensures may <==> id in roleCache && !roleCache[id].isSystem
    {
      may := id in roleCache && !roleCache[id].isSystem;
    }

    /** Writes the fields of the shared object. */
    method Overwrite(id: Text, name: Text, description: Text, permissions: seq<Text>)
      requires Valid() && id in roleCache && !roleCache[id].isSystem
      modifies CustomRoles()
      ensures Valid() && Cached() == old(Cached())[id := Role(name, description, permissions, false)]
    {
      var role := roleCache[id];
      role.name := name;
      role.description := description;
      role.permissions := permissions;
    }

    method UpdateRole(id: Text, name: Text, description: Text, permissions: seq<Text>, statements: nat)
      returns (ok: bool)
      requires Valid()
      modifies this`tables, CustomRoles()
      ensures Valid()
      ensures (Current(), ok) == Step(old(Current()), Update(id, name, description, permissions, statements))
    {
      hide Save, Step, Cached, Mutable;
      ghost var e := Update(id, name, description, permissions, statements);
      var may := MayChange(id);
      if !may {
        StepOfRefused(Current(), e);
        return false;
      }
      StepOfChange(Current(), e);
      Overwrite(id, name, description, permissions);
      ok := SaveRole(id, Role(name, description, permissions, false), statements);
    }

    method DeleteRole(id: Text, statements: nat) returns (ok: bool)
      requires Valid()
      modifies this
      ensures Valid()
      ensures (Current(), ok) == Step(old(Current()), Delete(id, statements))
    {
      hide Save, Step, Cached, Mutable;
      var may := MayChange(id);
      if !may {
        StepOfRefused(Current(), Delete(id, statements));
        return false;
      }
      StepOfDelete(Current(), id, statements);
      Forget(id);
      if statements == 0 {
        return false;
      }
      tables := tables.(roles := tables.roles - {id});
      return true;
    }

    /** Cached roles are the objects' values. */
    lemma CachedIs(id: Text)
      requires id in roleCache
      ensures id in Cached() && Cached()[id] == roleCache[id].Value()
    {
    }

    method AddPermissionToRole(id: Text, permission: Text, statements: nat) returns (ok: bool)
      requires Valid()
      modifies this`tables, CustomRoles()
      ensures Valid()
      ensures (Current(), ok) == Step(old(Current()), AddPermission(id, permission, statements))
    {
      hide Save, Step, Cached, Mutable;
      ghost var e := AddPermission(id, permission, statements);
      var may := MayChange(id);
      if !may {
        StepOfRefused(Current(), e);
        return false;
      }
      var role := roleCache[id];
      CachedIs(id);
      StepOfChange(Current(), e);
      for i := 0 to |role.permissions|
        invariant permission !in role.permissions[..i]
      {
        if role.permissions[i] == permission {
          return true;
        }
      }
      var permissions := role.permissions + [permission];
      var name, description := role.name, role.description;
      Overwrite(id, name, description, permissions);
      ok := SaveRole(id, Role(name, description, permissions, false), statements);
    }

    /** The filtering loop of RemovePermissionFromRole. */
    static method Without(permissions: seq<Text>, permission: Text) returns (kept: seq<Text>, found: bool)
      ensures found <==> permission in permissions
      ensures kept == RemoveAll(permissions, permission)
    {
      found, kept := false, [];
      for i := 0 to |permissions|
        invariant found <==> permission in permissions[..i]
        invariant kept + RemoveAll(permissions[i..], permission) == RemoveAll(permissions, permission)
      {
        assert permissions[i..][1..] == permissions[i + 1..];
        ghost var rest := RemoveAll(permissions[i + 1..], permission);
        if permissions[i] == permission {
          assert [] + rest == rest;
          found := true;
        } else {
          assert kept + ([permissions[i]] + rest) == kept + [permissions[i]] + rest;
          kept := kept + [permissions[i]];
        }
      }
      assert permissions[|permissions|..] == [];
    }

    method RemovePermissionFromRole(id: Text, permission: Text, statements: nat) returns (ok: bool)
      requires Valid()
      modifies this`tables, CustomRoles()
      ensures Valid()
      ensures (Current(), ok) == Step(old(Current()), RemovePermission(id, permission, statements))
    {
      hide Save, Step, Cached, Mutable;
      ghost var e := RemovePermission(id, permission, statements);
      var may := MayChange(id);
      if !may {
        StepOfRefused(Current(), e);
        return false;
      }
      var role := roleCache[id];
      CachedIs(id);
      StepOfChange(Current(), e);
      var kept, found := Without(role.permissions, permission);
      if !found {
        return true;
      }
      var name, description := role.name, role.description;
      Overwrite(id, name, description, kept);
      ok := SaveRole(id, Role(name, description, kept, false), statements);
    }

    /** HasPermission, for the role ids user_roles lists. */
    method UserHasPermission(userRoles: seq<Text>, permission: Text) returns (has: bool)
      ensures has == HasPermission(Cached(), userRoles, permission)
      ensures has <==> exists id | id in userRoles :: id in roleCache && permission in roleCache[id].permissions
    {
      for i := 0 to |userRoles|
        invariant forall id | id in userRoles[..i] :: !RoleHas(Cached(), id, permission)
      {
        if userRoles[i] in roleCache && permission in roleCache[userRoles[i]].permissions {
          assert RoleHas(Cached(), userRoles[i], permission);
          return true;
        }
      }
      PermissionMeans(userRoles, permission);
      return false;
    }

    /** Every permission of every cached role of the user, once. */
    method GetUserRolePermissions(userRoles: seq<Text>) returns (permissions: seq<Text>)
      ensures NoDuplicates(permissions)
      ensures forall p :: p in permissions <==> HasPermission(Cached(), userRoles, p)
      ensures forall p :: p in permissions <==>
                exists id | id in userRoles :: id in roleCache && p in roleCache[id].permissions
    {
      permissions := [];
      var seen: set<Text> := {};
      for i := 0 to |userRoles|
        invariant NoDuplicates(permissions) && seen == Elements(permissions)
        invariant forall p :: p in permissions <==> HasPermission(Cached(), userRoles[..i], p)
      {
        assert userRoles[..i + 1] == userRoles[..i] + [userRoles[i]];
        HasPermissionSnoc(Cached(), userRoles[..i], userRoles[i]);
        if userRoles[i] in roleCache {
          ghost var before := permissions;
          var role := roleCache[userRoles[i]].permissions;
          for j := 0 to |role|
            invariant NoDuplicates(permissions) && seen == Elements(permissions)
            invariant forall p :: p in permissions <==> p in before || p in role[..j]
          {
            assert role[..j + 1] == role[..j] + [role[j]];
            if role[j] !in seen {
              seen := seen + {role[j]};
              permissions := permissions + [role[j]];
            }
          }
          assert role[..|role|] == role;
        }
      }
      assert userRoles[..|userRoles|] == userRoles;
      forall p
        ensures HasPermission(Cached(), userRoles, p) <==>
                exists id | id in userRoles :: id in roleCache && p in roleCache[id].permissions
      {
        PermissionMeans(userRoles, p);
      }
    }

    /** A permission is held when some cached role of the user lists it, and by nothing else. */
    lemma PermissionMeans(userRoles: seq<Text>, permission: Text)
      ensures HasPermission(Cached(), userRoles, permission) <==>
              exists id | id in userRoles :: id in roleCache && permission in roleCache[id].permissions
    {
      if HasPermission(Cached(), userRoles, permission) {
        var id :| id in userRoles && RoleHas(Cached(), id, permission);
        assert id in roleCache && permission in roleCache[id].permissions;
      }
      if id :| id in userRoles && id in roleCache && permission in roleCache[id].permissions {
        assert RoleHas(Cached(), id, permission);
      }
    }
  }
}
