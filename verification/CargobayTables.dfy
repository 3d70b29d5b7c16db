/**
 The table list of backupTables and the foreign keys that the repository's schema and
 migrations declare, and what they mean for a restore.
 */
module CargobayTables {
  import opened Prelude
  import opened GoText
  import opened Relational
  import opened Dump
  import opened TornDump
  import opened Backup

  const ROLES: Text := "roles"
  const PERMISSIONS: Text := "permissions"
  const ROLE_PERMISSIONS: Text := "role_permissions"
  const USERS: Text := "users"
  const USER_ROLES: Text := "user_roles"
  const ACCESS_KEYS: Text := "access_keys"
  const REGISTRIES: Text := "registries"
  const REGISTRY_ACCESS: Text := "registry_access"
  const ARTIFACTS: Text := "artifacts"
  const VULNERABILITY_SCANS: Text := "vulnerability_scans"
  const AUDIT_LOG: Text := "audit_log"
  const VULNERABILITY_DB_SETTINGS: Text := "vulnerability_db_settings"
  const SEARCH_INDEX_SETTINGS: Text := "search_index_settings"
  const VULNERABILITY_SCAN_SETTINGS: Text := "vulnerability_scan_settings"
  const BACKUP_SETTINGS: Text := "backup_settings"
  const GROUPS: Text := "groups"
  const GROUP_MEMBERS: Text := "group_members"
  const REGISTRY_GROUP_ACCESS: Text := "registry_group_access"

  const STATS: Text := "stats"

  const ID: Text := "id"
  const USER_ID: Text := "user_id"
  const REGISTRY_ID: Text := "registry_id"
  const GROUP_ID: Text := "group_id"

  const BACKUP_TABLES: seq<Text> := [
    ROLES, PERMISSIONS, ROLE_PERMISSIONS, USERS, USER_ROLES, ACCESS_KEYS, REGISTRIES, REGISTRY_ACCESS,
    ARTIFACTS, VULNERABILITY_SCANS, AUDIT_LOG, VULNERABILITY_DB_SETTINGS, SEARCH_INDEX_SETTINGS,
    VULNERABILITY_SCAN_SETTINGS, BACKUP_SETTINGS]

  const MEMBER_IS_USER: ForeignKey := ForeignKey(GROUP_MEMBERS, USER_ID, USERS, USER_ID)
  const GRANT_IS_ON_REGISTRY: ForeignKey := ForeignKey(REGISTRY_GROUP_ACCESS, REGISTRY_ID, REGISTRIES, ID)

  const FOREIGN_KEYS: set<ForeignKey> := {
    ForeignKey(ACCESS_KEYS, USER_ID, USERS, USER_ID),
    ForeignKey(USER_ROLES, USER_ID, USERS, USER_ID),
    ForeignKey(REGISTRY_ACCESS, REGISTRY_ID, REGISTRIES, ID),
    ForeignKey(REGISTRY_ACCESS, USER_ID, USERS, USER_ID),
    ForeignKey(GROUP_MEMBERS, GROUP_ID, GROUPS, ID),
    MEMBER_IS_USER,
    GRANT_IS_ON_REGISTRY,
    ForeignKey(REGISTRY_GROUP_ACCESS, GROUP_ID, GROUPS, ID)}

  /** A schema with the repository's foreign keys, its listed tables and the two group tables. */
  predicate CargobaySchema(schema: Schema) {
    && WellFormed(schema)
    && schema.foreignKeys == FOREIGN_KEYS
    && (forall t | t in BACKUP_TABLES :: t in schema.defs)
    && NotNull(schema, GROUP_MEMBERS, USER_ID)
    && NotNull(schema, REGISTRY_GROUP_ACCESS, REGISTRY_ID)
  }

  predicate NotNull(schema: Schema, t: Text, column: Text) {
    t in schema.defs && exists c | c in schema.defs[t].columns :: c.name == column && !c.nullable
  }

  ghost predicate RefersTo(tables: Tables, child: Text, column: Text, parent: Text, target: Text) {
    child in tables && parent in tables &&
    forall row: Row | row in tables[child] && column in row && !row[column].Null? ::
      exists p | p in tables[parent] :: target in p && p[target] == row[column]
  }

  /** What the foreign keys mean for every database of this schema: nothing refers to what is not there. */
  lemma NothingDangles(schema: Schema, tables: Tables)
    requires CargobaySchema(schema) && Valid(schema, tables)
    ensures RefersTo(tables, "access_keys", "user_id", "users", "user_id")
    ensures RefersTo(tables, "user_roles", "user_id", "users", "user_id")
    ensures RefersTo(tables, "registry_access", "registry_id", "registries", "id")
    ensures RefersTo(tables, "registry_access", "user_id", "users", "user_id")
    ensures RefersTo(tables, "group_members", "group_id", "groups", "id")
    ensures RefersTo(tables, "group_members", "user_id", "users", "user_id")
    ensures RefersTo(tables, "registry_group_access", "registry_id", "registries", "id")
    ensures RefersTo(tables, "registry_group_access", "group_id", "groups", "id")
  {
    hide RefersTo, WellFormed, Valid;
    forall fk | fk in schema.foreignKeys
      ensures RefersTo(tables, fk.child, fk.column, fk.parent, fk.target)
    {
      KeyRefers(schema, tables, fk);
    }
    assert ForeignKey(ACCESS_KEYS, USER_ID, USERS, USER_ID) in FOREIGN_KEYS;
    assert ForeignKey(USER_ROLES, USER_ID, USERS, USER_ID) in FOREIGN_KEYS;
    assert ForeignKey(REGISTRY_ACCESS, REGISTRY_ID, REGISTRIES, ID) in FOREIGN_KEYS;
    assert ForeignKey(REGISTRY_ACCESS, USER_ID, USERS, USER_ID) in FOREIGN_KEYS;
    assert ForeignKey(GROUP_MEMBERS, GROUP_ID, GROUPS, ID) in FOREIGN_KEYS;
    assert MEMBER_IS_USER in FOREIGN_KEYS && GRANT_IS_ON_REGISTRY in FOREIGN_KEYS;
    assert ForeignKey(REGISTRY_GROUP_ACCESS, GROUP_ID, GROUPS, ID) in FOREIGN_KEYS;
  }

  lemma KeyRefers(schema: Schema, tables: Tables, fk: ForeignKey)
    requires WellFormed(schema) && Valid(schema, tables) && fk in schema.foreignKeys
    ensures RefersTo(tables, fk.child, fk.column, fk.parent, fk.target)
  {
    hide TableValid;
    assert KeyWellFormed(schema.defs, fk);
    forall row: Row | row in tables[fk.child] && fk.column in row && !row[fk.column].Null?
      ensures exists p | p in tables[fk.parent] :: fk.target in p && p[fk.target] == row[fk.column]
    {
      assert Holds(fk, row, tables[fk.parent]) && References(fk, row);
    }
  }

  lemma BackupTablesDistinct()
    ensures Distinct(BACKUP_TABLES)
  {
    assert ROLES[0] != USERS[0] && PERMISSIONS[0] != ACCESS_KEYS[0] && USER_ROLES[0] != REGISTRIES[0];
    assert ARTIFACTS[1] != AUDIT_LOG[1] && REGISTRY_ACCESS[0] != BACKUP_SETTINGS[0];
  }

  lemma GroupTablesNotBackedUp()
    ensures GROUP_MEMBERS !in BACKUP_TABLES && REGISTRY_GROUP_ACCESS !in BACKUP_TABLES && GROUPS !in BACKUP_TABLES
  {
    assert REGISTRY_GROUP_ACCESS[0] != SEARCH_INDEX_SETTINGS[0];
  }

  /** The instance-wide totals are no part of a backup, so a restore never sets them back. */
  lemma RestoreKeepsStats(schema: Schema, rule: TruncateRule, contents: Contents, source: Tables, target: Tables)
    requires WellFormed(schema) && Valid(schema, source) && Valid(schema, target) && STATS in schema.defs
    requires BackupOrder(schema, BACKUP_TABLES) && ReadOf(BACKUP_TABLES, contents, source)
    ensures Dumpable(schema, BACKUP_TABLES, contents)
    ensures var outcome := Relational.Run(schema, rule, target, DumpText(schema, BACKUP_TABLES, contents));
      outcome.Some? ==> outcome.value[STATS] == target[STATS] && outcome.value[ARTIFACTS] == source[ARTIFACTS]
  {
    BackupRestoreIdentity(schema, rule, BACKUP_TABLES, contents, source, target);
    StatsNotBackedUp();
  }

  lemma StatsNotBackedUp()
    ensures STATS !in BACKUP_TABLES && ARTIFACTS in BACKUP_TABLES
  {
    assert STATS[0] != ROLES[0] && STATS[0] != USERS[0];
    assert BACKUP_TABLES[8] == ARTIFACTS;
  }

  ghost predicate Placed(order: seq<Text>, fk: ForeignKey) {
    exists i, j | 0 <= i < j < |order| :: order[i] == fk.parent && order[j] == fk.child
  }

  lemma PlacedAt(order: seq<Text>, fk: ForeignKey, i: nat, j: nat)
    requires i < j < |order| && order[i] == fk.parent && order[j] == fk.child
    ensures Placed(order, fk)
  {
  }

  lemma ForeignKeysPlaced(fk: ForeignKey)
    requires fk in FOREIGN_KEYS
    ensures Placed(BACKUP_TABLES, fk) || fk.child == GROUP_MEMBERS || fk.child == REGISTRY_GROUP_ACCESS
  {
    if fk.child == ACCESS_KEYS {
      PlacedAt(BACKUP_TABLES, fk, 3, 5);
    } else if fk.child == USER_ROLES {
      PlacedAt(BACKUP_TABLES, fk, 3, 4);
    } else if fk.child == REGISTRY_ACCESS {
      PlacedAt(BACKUP_TABLES, fk, if fk.column == REGISTRY_ID then 6 else 3, 7);
    }
  }

  lemma PlacedIsOrdered(schema: Schema, order: seq<Text>)
    requires Distinct(order) && forall t | t in order :: t in schema.defs
    requires forall fk | fk in schema.foreignKeys :: Placed(order, fk) || fk.child !in order
    ensures BackupOrder(schema, order)
  {
    forall fk, j | fk in schema.foreignKeys && 0 <= j < |order| && order[j] == fk.child
      ensures exists i | 0 <= i < j :: order[i] == fk.parent
    {
      var a, b :| 0 <= a < b < |order| && order[a] == fk.parent && order[b] == fk.child;
      assert b == j;
    }
  }

  /** The list is FK-safe as its comment says: no parent is missing or comes late. */
  lemma BackupTablesAreOrdered(schema: Schema)
    requires CargobaySchema(schema)
    ensures BackupOrder(schema, BACKUP_TABLES)
  {
    BackupTablesDistinct();
    GroupTablesNotBackedUp();
    forall fk | fk in schema.foreignKeys
      ensures Placed(BACKUP_TABLES, fk) || fk.child !in BACKUP_TABLES
    {
      ForeignKeysPlaced(fk);
    }
    PlacedIsOrdered(schema, BACKUP_TABLES);
  }

  lemma NotNullReferences(schema: Schema, tables: Tables, fk: ForeignKey)
    requires WellFormed(schema) && Valid(schema, tables) && NotNull(schema, fk.child, fk.column)
    ensures (forall row | row in tables[fk.child] :: !References(fk, row)) <==> tables[fk.child] == multiset{}
  {
    var columns := schema.defs[fk.child].columns;
    forall row | row in tables[fk.child]
      ensures References(fk, row)
    {
      assert RowFits(columns, row);
      var i :| 0 <= i < |columns| && columns[i].name == fk.column && !columns[i].nullable;
      assert Names(columns)[i] in row && HasType(row[columns[i].name], columns[i]);
    }
    if tables[fk.child] != multiset{} {
      var row :| row in tables[fk.child];
      assert References(fk, row);
    }
  }

  /**
   The claim on DumpStatements, that each TRUNCATE succeeds without CASCADE, holds of this
   schema exactly when no user is in a group and no group has a registry grant; where
   TRUNCATE also refuses a table that another table's foreign key names, it never holds.
   */
  lemma CargobayRestore(schema: Schema, rule: TruncateRule, contents: Contents, source: Tables, target: Tables)
    requires CargobaySchema(schema) && Valid(schema, source) && Valid(schema, target)
    requires ReadOf(BACKUP_TABLES, contents, source)
    ensures Dumpable(schema, BACKUP_TABLES, contents)
    ensures Relational.Run(schema, rule, target, DumpText(schema, BACKUP_TABLES, contents)).Some? <==>
      rule.ReferencingRows? && target[GROUP_MEMBERS] == multiset{} && target[REGISTRY_GROUP_ACCESS] == multiset{}
  {
    BackupTablesAreOrdered(schema);
    BackupRestoreIdentity(schema, rule, BACKUP_TABLES, contents, source, target);
    CargobayPins(schema, rule, target);
  }

  lemma ForeignKeysFromOutside(fk: ForeignKey)
    requires fk in FOREIGN_KEYS && fk.parent in BACKUP_TABLES
    ensures fk.child in BACKUP_TABLES || fk == MEMBER_IS_USER || fk == GRANT_IS_ON_REGISTRY
  {
    GroupTablesNotBackedUp();
    ForeignKeysPlaced(fk);
  }

  lemma OutsideKeysPin()
    ensures MEMBER_IS_USER in FOREIGN_KEYS && GRANT_IS_ON_REGISTRY in FOREIGN_KEYS
    ensures MEMBER_IS_USER.parent in BACKUP_TABLES && MEMBER_IS_USER.child !in BACKUP_TABLES
    ensures GRANT_IS_ON_REGISTRY.parent in BACKUP_TABLES && GRANT_IS_ON_REGISTRY.child !in BACKUP_TABLES
  {
    GroupTablesNotBackedUp();
    assert BACKUP_TABLES[3] == USERS && BACKUP_TABLES[6] == REGISTRIES;
  }

  /** When two foreign keys are the only ones that lead into the list from outside. */
  lemma PinnedByTwo(schema: Schema, rule: TruncateRule, order: seq<Text>, target: Tables, a: ForeignKey, b: ForeignKey)
    requires WellFormed(schema) && Valid(schema, target)
    requires a in schema.foreignKeys && a.parent in order && a.child !in order
    requires b in schema.foreignKeys && b.parent in order && b.child !in order
    requires forall fk | fk in schema.foreignKeys && fk.parent in order :: fk.child in order || fk == a || fk == b
    requires NotNull(schema, a.child, a.column) && NotNull(schema, b.child, b.column)
    ensures Unpinned(schema, rule, order, order, target) <==>
      rule.ReferencingRows? && target[a.child] == multiset{} && target[b.child] == multiset{}
  {
    NotNullReferences(schema, target, a);
    NotNullReferences(schema, target, b);
  }

  lemma CargobayPins(schema: Schema, rule: TruncateRule, target: Tables)
    requires CargobaySchema(schema) && Valid(schema, target)
    ensures Unpinned(schema, rule, BACKUP_TABLES, BACKUP_TABLES, target) <==>
      rule.ReferencingRows? && target[GROUP_MEMBERS] == multiset{} && target[REGISTRY_GROUP_ACCESS] == multiset{}
  {
    OutsideKeysPin();
    forall fk | fk in schema.foreignKeys && fk.parent in BACKUP_TABLES
      ensures fk.child in BACKUP_TABLES || fk == MEMBER_IS_USER || fk == GRANT_IS_ON_REGISTRY
    {
      ForeignKeysFromOutside(fk);
    }
    PinnedByTwo(schema, rule, BACKUP_TABLES, target, MEMBER_IS_USER, GRANT_IS_ON_REGISTRY);
  }

  // ----- an empty installation takes every backup -----

  predicate HoldsTables(outcome: Option<Tables>, listed: seq<Text>, source: Tables) {
    outcome.Some? && forall t | t in listed :: t in outcome.value && t in source && outcome.value[t] == source[t]
  }

  /** Into empty tables every backup restores, and the listed tables are then the source's. */
  lemma EmptyInstallationRestores(schema: Schema, contents: Contents, source: Tables)
    requires CargobaySchema(schema) && Valid(schema, source) && ReadOf(BACKUP_TABLES, contents, source)
    ensures Dumpable(schema, BACKUP_TABLES, contents)
    ensures HoldsTables(
      Relational.Run(schema, ReferencingRows, EmptyTables(schema), DumpText(schema, BACKUP_TABLES, contents)),
      BACKUP_TABLES, source)
  {
    hide WellFormed, Valid, Relational.Run, DumpText;
    EmptyTablesValid(schema);
    BackupTablesAreOrdered(schema);
    CargobayRestore(schema, ReferencingRows, contents, source, EmptyTables(schema));
    BackupRestoreIdentity(schema, ReferencingRows, BACKUP_TABLES, contents, source, EmptyTables(schema));
  }

  /** Any database with an outside row that refers into the list refuses its own dump. */
  lemma OwnDumpPinned(schema: Schema, order: seq<Text>, contents: Contents, tables: Tables, fk: ForeignKey, row: Row)
    requires WellFormed(schema) && Valid(schema, tables) && BackupOrder(schema, order)
    requires ReadOf(order, contents, tables)
    requires fk in schema.foreignKeys && fk.parent in order && fk.child !in order
    requires row in tables[fk.child] && References(fk, row)
    ensures Dumpable(schema, order, contents)
    ensures Relational.Run(schema, ReferencingRows, tables, DumpText(schema, order, contents)) == None
  {
    RestoreOutcome(schema, ReferencingRows, order, contents, tables, tables);
  }
}
