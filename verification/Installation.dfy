/**
 An installation with the repository's tables and foreign keys: the assumptions of
 CargobayTables are met by it, and one user in one group makes it refuse its own dump.
 */
module Installation {
  import opened Prelude
  import opened GoText
  import opened SqlText
  import opened Relational
  import opened Dump
  import opened TornDump
  import opened CargobayTables

  const ROLE_ID: Text := "role_id"
  const PERMISSION_ID: Text := "permission_id"
  const ARTIFACT_ID: Text := "artifact_id"
  const SCAN_TIME: Text := "scan_time"

  /** The tables of schema.sql in its order, and those of the groups migration. */
  const INSTALLED_TABLES: seq<Text> := [
    ARTIFACTS, USERS, ACCESS_KEYS, REGISTRIES, REGISTRY_ACCESS, ROLES, PERMISSIONS, ROLE_PERMISSIONS, USER_ROLES,
    AUDIT_LOG, VULNERABILITY_DB_SETTINGS, SEARCH_INDEX_SETTINGS, VULNERABILITY_SCANS, VULNERABILITY_SCAN_SETTINGS,
    BACKUP_SETTINGS, STATS, GROUPS, GROUP_MEMBERS, REGISTRY_GROUP_ACCESS]

  /** What a full backup leaves out: the totals and the groups. */
  predicate NotBackedUp(t: Text) {
    t == STATS || t == GROUPS || t == GROUP_MEMBERS || t == REGISTRY_GROUP_ACCESS
  }

  function Key(name: Text): Column {
    Column(name, TText, false)
  }

  function KeyedBy(column: Text): TableDef {
    TableDef([Key(column)], {{column}})
  }

  function KeyedByBoth(first: Text, second: Text): TableDef {
    TableDef([Key(first), Key(second)], {{first, second}})
  }

  function KeyedAndOwned(column: Text, owner: Text): TableDef {
    TableDef([Key(column), Key(owner)], {{column}})
  }

  /** A table's primary key and the columns its foreign keys name, all as text. */
  function KeyTable(t: Text): TableDef {
    if t == USERS then KeyedBy(USER_ID)
    else if t == ACCESS_KEYS then KeyedAndOwned(ID, USER_ID)
    else if t == USER_ROLES then KeyedByBoth(USER_ID, ROLE_ID)
    else if t == ROLE_PERMISSIONS then KeyedByBoth(ROLE_ID, PERMISSION_ID)
    else if t == REGISTRY_ACCESS then KeyedByBoth(REGISTRY_ID, USER_ID)
    else if t == GROUP_MEMBERS then KeyedByBoth(GROUP_ID, USER_ID)
    else if t == REGISTRY_GROUP_ACCESS then KeyedByBoth(REGISTRY_ID, GROUP_ID)
    else if t == VULNERABILITY_SCANS then KeyedByBoth(ARTIFACT_ID, SCAN_TIME)
    else KeyedBy(ID)
  }

  function InstalledSchema(): Schema {
    Schema(map t | t in INSTALLED_TABLES :: KeyTable(t), FOREIGN_KEYS)
  }

  // ----- the schema is well formed -----

  lemma RoleTableNames()
    ensures IsName(ROLES) && IsName(PERMISSIONS) && IsName(ROLE_PERMISSIONS) && IsName(USERS) && IsName(USER_ROLES)
  {
  }

  lemma RegistryTableNames()
    ensures IsName(ACCESS_KEYS) && IsName(REGISTRIES) && IsName(REGISTRY_ACCESS) && IsName(ARTIFACTS)
    ensures IsName(VULNERABILITY_SCANS) && IsName(AUDIT_LOG)
  {
  }

  lemma VulnerabilityDbSettingsName()
    ensures IsName(VULNERABILITY_DB_SETTINGS)
  {
  }

  lemma VulnerabilityScanSettingsName()
    ensures IsName(VULNERABILITY_SCAN_SETTINGS)
  {
  }

  lemma SettingsTableNames()
    ensures IsName(SEARCH_INDEX_SETTINGS) && IsName(BACKUP_SETTINGS)
  {
  }

  lemma OtherTableNames()
    ensures IsName(GROUPS) && IsName(GROUP_MEMBERS) && IsName(REGISTRY_GROUP_ACCESS) && IsName(STATS)
  {
  }

  lemma TableNames(t: Text)
    requires t in INSTALLED_TABLES
    ensures IsName(t)
  {
    hide IsName;
    RoleTableNames();
    RegistryTableNames();
    VulnerabilityDbSettingsName();
    VulnerabilityScanSettingsName();
    SettingsTableNames();
    OtherTableNames();
  }

  lemma ColumnNames()
    ensures IsName(ID) && IsName(USER_ID) && IsName(REGISTRY_ID) && IsName(GROUP_ID)
    ensures IsName(ROLE_ID) && IsName(PERMISSION_ID) && IsName(ARTIFACT_ID) && IsName(SCAN_TIME)
  {
  }

  lemma ColumnNamesDiffer()
    ensures ID != USER_ID && USER_ID != ROLE_ID && ROLE_ID != PERMISSION_ID && REGISTRY_ID != USER_ID
    ensures GROUP_ID != USER_ID && REGISTRY_ID != GROUP_ID && ARTIFACT_ID != SCAN_TIME
  {
  }

  lemma KeyedWellFormed(first: Text, second: Text)
    requires IsName(first) && IsName(second) && first != second
    ensures DefWellFormed(KeyedBy(first)) && DefWellFormed(KeyedBy(second))
    ensures DefWellFormed(KeyedByBoth(first, second)) && DefWellFormed(KeyedAndOwned(first, second))
    ensures Names(KeyedBy(first).columns) == [first] && Names(KeyedBy(second).columns) == [second]
    ensures Names(KeyedByBoth(first, second).columns) == [first, second]
    ensures Names(KeyedAndOwned(first, second).columns) == [first, second]
  {
    hide IsName;
    assert Names([Key(second)]) == [second] && Names([Key(first)]) == [first];
    assert [Key(first), Key(second)][1..] == [Key(second)];
    assert Names([Key(first), Key(second)]) == [first, second];
  }

  lemma TablesWellFormed(t: Text)
    ensures DefWellFormed(KeyTable(t))
  {
    hide IsName, DefWellFormed, Names, KeyedBy, KeyedByBoth, KeyedAndOwned;
    ColumnNames();
    ColumnNamesDiffer();
    KeyedWellFormed(ID, USER_ID);
    KeyedWellFormed(USER_ID, ROLE_ID);
    KeyedWellFormed(ROLE_ID, PERMISSION_ID);
    KeyedWellFormed(REGISTRY_ID, USER_ID);
    KeyedWellFormed(GROUP_ID, USER_ID);
    KeyedWellFormed(REGISTRY_ID, GROUP_ID);
    KeyedWellFormed(ARTIFACT_ID, SCAN_TIME);
  }

  lemma OwnerTables()
    ensures KeyTable(USERS) == KeyedBy(USER_ID) && KeyTable(REGISTRIES) == KeyedBy(ID)
    ensures KeyTable(GROUPS) == KeyedBy(ID)
  {
  }

  lemma OwnedTables()
    ensures KeyTable(ACCESS_KEYS) == KeyedAndOwned(ID, USER_ID)
    ensures KeyTable(USER_ROLES) == KeyedByBoth(USER_ID, ROLE_ID)
    ensures KeyTable(REGISTRY_ACCESS) == KeyedByBoth(REGISTRY_ID, USER_ID)
  {
  }

  lemma GroupTables()
    ensures KeyTable(GROUP_MEMBERS) == KeyedByBoth(GROUP_ID, USER_ID)
    ensures KeyTable(REGISTRY_GROUP_ACCESS) == KeyedByBoth(REGISTRY_ID, GROUP_ID)
  {
  }

  lemma FromBoth(defs: map<Text, TableDef>, fk: ForeignKey, first: Text, second: Text)
    requires fk.child in defs && fk.parent in defs && defs[fk.parent] == KeyedBy(fk.target)
    requires defs[fk.child] == KeyedByBoth(first, second) || defs[fk.child] == KeyedAndOwned(first, second)
    requires fk.column == first || fk.column == second
    ensures KeyWellFormed(defs, fk)
  {
    var columns := defs[fk.child].columns;
    assert Names(columns)[0] == columns[0].name && Names(columns)[1] == columns[1].name;
    assert Names(defs[fk.parent].columns)[0] == fk.target;
  }

  /** The backup leaves out exactly the totals and the group tables of what is installed. */
  lemma BackedUpIffInstalled(t: Text)
    requires t in BACKUP_TABLES || t in INSTALLED_TABLES
    ensures t in INSTALLED_TABLES && (t in BACKUP_TABLES <==> !NotBackedUp(t))
  {
    GroupTablesNotBackedUp();
    StatsNotBackedUp();
  }

  lemma TableIsInstalled(t: Text)
    requires t in BACKUP_TABLES || t in INSTALLED_TABLES
    ensures t in InstalledSchema().defs && InstalledSchema().defs[t] == KeyTable(t)
  {
    hide KeyTable;
    BackedUpIffInstalled(t);
  }

  lemma ForeignKeyTables(fk: ForeignKey)
    requires fk in FOREIGN_KEYS
    ensures fk.child in InstalledSchema().defs && InstalledSchema().defs[fk.child] == KeyTable(fk.child)
    ensures fk.parent in InstalledSchema().defs && InstalledSchema().defs[fk.parent] == KeyTable(fk.parent)
  {
    hide KeyTable, InstalledSchema;
    TableIsInstalled(fk.child);
    TableIsInstalled(fk.parent);
  }

  lemma ForeignKeyWellFormed(fk: ForeignKey)
    requires fk in FOREIGN_KEYS
    ensures KeyWellFormed(InstalledSchema().defs, fk)
  {
    hide KeyTable, InstalledSchema, KeyWellFormed, KeyedBy, KeyedByBoth, KeyedAndOwned;
    ForeignKeyTables(fk);
    OwnerTables();
    OwnedTables();
    GroupTables();
    var defs := InstalledSchema().defs;
    if fk.child == ACCESS_KEYS {
      FromBoth(defs, fk, ID, USER_ID);
    } else if fk.child == USER_ROLES {
      FromBoth(defs, fk, USER_ID, ROLE_ID);
    } else if fk.child == REGISTRY_ACCESS {
      FromBoth(defs, fk, REGISTRY_ID, USER_ID);
    } else if fk.child == GROUP_MEMBERS {
      FromBoth(defs, fk, GROUP_ID, USER_ID);
    } else {
      FromBoth(defs, fk, REGISTRY_ID, GROUP_ID);
    }
  }

  lemma InstalledWellFormed()
    ensures WellFormed(InstalledSchema())
  {
    hide IsName, DefWellFormed, KeyTable, KeyWellFormed;
    forall t | t in INSTALLED_TABLES
      ensures IsName(t) && DefWellFormed(KeyTable(t))
    {
      TableNames(t);
      TablesWellFormed(t);
    }
    forall fk | fk in FOREIGN_KEYS
      ensures KeyWellFormed(InstalledSchema().defs, fk)
    {
      ForeignKeyWellFormed(fk);
    }
  }

  lemma BothNotNull(schema: Schema, t: Text, first: Text, second: Text)
    requires t in schema.defs && schema.defs[t] == KeyedByBoth(first, second)
    ensures NotNull(schema, t, first) && NotNull(schema, t, second)
  {
    var columns := schema.defs[t].columns;
    assert columns[0] in columns && columns[1] in columns;
  }

  lemma InstalledSchemaIsCargobay()
    ensures CargobaySchema(InstalledSchema())
  {
    hide WellFormed, NotNull, KeyTable, InstalledSchema;
    InstalledWellFormed();
    GroupTables();
    TableIsInstalled(GROUP_MEMBERS);
    TableIsInstalled(REGISTRY_GROUP_ACCESS);
    BothNotNull(InstalledSchema(), GROUP_MEMBERS, GROUP_ID, USER_ID);
    BothNotNull(InstalledSchema(), REGISTRY_GROUP_ACCESS, REGISTRY_ID, GROUP_ID);
    forall t | t in BACKUP_TABLES
      ensures t in InstalledSchema().defs
    {
      TableIsInstalled(t);
    }
    InstalledForeignKeys();
  }

  /**
   A backup of any installation, restored into one with empty tables, brings back every table
   that is installed but the totals and the group tables.
   */
  lemma EverythingRestored(contents: Contents, source: Tables)
    requires WellFormed(InstalledSchema()) && Valid(InstalledSchema(), source)
    requires ReadOf(BACKUP_TABLES, contents, source)
    ensures Dumpable(InstalledSchema(), BACKUP_TABLES, contents)
    ensures RestoresAllButGroups(
              Relational.Run(InstalledSchema(), ReferencingRows, EmptyTables(InstalledSchema()),
                             DumpText(InstalledSchema(), BACKUP_TABLES, contents)), source)
  {
    hide WellFormed, Valid, InstalledSchema, Relational.Run, DumpText, CargobaySchema;
    InstalledSchemaIsCargobay();
    EmptyInstallationRestores(InstalledSchema(), contents, source);
    forall t | t in INSTALLED_TABLES && !NotBackedUp(t)
      ensures t in BACKUP_TABLES
    {
      BackedUpIffInstalled(t);
    }
  }

  predicate RestoresAllButGroups(outcome: Option<Tables>, source: Tables) {
    && outcome.Some?
    && forall t | t in INSTALLED_TABLES &&
                  t != STATS && t != GROUPS && t != GROUP_MEMBERS && t != REGISTRY_GROUP_ACCESS ::
         t in outcome.value && t in source && outcome.value[t] == source[t]
  }

  lemma InstalledForeignKeys()
    ensures InstalledSchema().foreignKeys == FOREIGN_KEYS
  {
  }

  // ----- one user in one group: the database refuses its own dump -----

  function UserRow(user: Text): Row {
    map[USER_ID := Str(user)]
  }

  function GroupRow(group: Text): Row {
    map[ID := Str(group)]
  }

  function MemberRow(user: Text, group: Text): Row {
    map[GROUP_ID := Str(group), USER_ID := Str(user)]
  }

  function WithRow(tables: Tables, t: Text, row: Row): Tables
    requires t in tables
  {
    tables[t := tables[t] + multiset{row}]
  }

  lemma KeyRowFits(column: Text, value: Text)
    ensures RowFits(KeyedBy(column).columns, map[column := Str(value)])
  {
    assert Names(KeyedBy(column).columns) == [column];
  }

  lemma BothRowFits(first: Text, second: Text, v: Text, w: Text)
    requires first != second
    ensures RowFits(KeyedByBoth(first, second).columns, map[first := Str(v), second := Str(w)])
  {
    var columns := KeyedByBoth(first, second).columns;
    assert columns[1..] == [Key(second)] && Names(columns[1..]) == [second];
    assert Names(columns) == [first, second];
  }

  /** A first row goes into an empty table when its foreign keys find their parents. */
  lemma FirstRow(schema: Schema, tables: Tables, t: Text, row: Row)
    requires WellFormed(schema) && Valid(schema, tables) && t in tables && tables[t] == multiset{}
    requires RowFits(schema.defs[t].columns, row)
    requires forall fk | fk in schema.foreignKeys && fk.child == t ::
               fk.parent != t && Holds(fk, row, tables[fk.parent])
    ensures Valid(schema, WithRow(tables, t, row))
  {
    hide WellFormed, RowFits, Holds, TableValid, Integrity;
    InsertKeepsValid(schema, tables, t, row);
  }

  lemma MemberKeys(fk: ForeignKey)
    requires fk in FOREIGN_KEYS
    ensures fk.child != USERS && fk.child != GROUPS
    ensures fk.child == GROUP_MEMBERS ==> fk == MEMBER_IS_USER || fk == ForeignKey(GROUP_MEMBERS, GROUP_ID, GROUPS, ID)
  {
  }

  lemma MemberTablesDiffer()
    ensures USERS != GROUPS && GROUPS != GROUP_MEMBERS && GROUP_MEMBERS != USERS
  {
  }

  lemma MemberHolds(fk: ForeignKey, row: Row, parents: multiset<Row>, parent: Row)
    requires fk.column in row && parent in parents && fk.target in parent && parent[fk.target] == row[fk.column]
    ensures Holds(fk, row, parents)
  {
  }

  /** One user, one group, and the user in it; everything else is empty. */
  function OneMember(user: Text, group: Text): Tables {
    var empty := EmptyTables(InstalledSchema());
    TableIsInstalled(USERS);
    TableIsInstalled(GROUPS);
    TableIsInstalled(GROUP_MEMBERS);
    var owners := WithRow(WithRow(empty, USERS, UserRow(user)), GROUPS, GroupRow(group));
    WithRow(owners, GROUP_MEMBERS, MemberRow(user, group))
  }

  lemma OneMemberValid(user: Text, group: Text)
    ensures WellFormed(InstalledSchema()) && Valid(InstalledSchema(), OneMember(user, group))
  {
    hide WellFormed, Valid, KeyTable, InstalledSchema, RowFits, Holds, KeyedBy, KeyedByBoth;
    var schema := InstalledSchema();
    InstalledWellFormed();
    InstalledForeignKeys();
    EmptyTablesValid(schema);
    OwnerTables();
    GroupTables();
    TableIsInstalled(USERS);
    TableIsInstalled(GROUPS);
    TableIsInstalled(GROUP_MEMBERS);
    MemberTablesDiffer();
    ColumnNamesDiffer();
    KeyRowFits(USER_ID, user);
    KeyRowFits(ID, group);
    BothRowFits(GROUP_ID, USER_ID, group, user);
    var empty := EmptyTables(schema);
    var withUser := WithRow(empty, USERS, UserRow(user));
    var withGroup := WithRow(withUser, GROUPS, GroupRow(group));
    forall fk | fk in schema.foreignKeys
      ensures fk.child != USERS && fk.child != GROUPS
      ensures fk.child == GROUP_MEMBERS ==>
                && fk.parent != GROUP_MEMBERS && fk.parent in withGroup
                && Holds(fk, MemberRow(user, group), withGroup[fk.parent])
    {
      MemberKeys(fk);
      if fk == MEMBER_IS_USER {
        MemberHolds(fk, MemberRow(user, group), withGroup[USERS], UserRow(user));
      } else if fk.child == GROUP_MEMBERS {
        MemberHolds(fk, MemberRow(user, group), withGroup[GROUPS], GroupRow(group));
      }
    }
    FirstRow(schema, empty, USERS, UserRow(user));
    FirstRow(schema, withUser, GROUPS, GroupRow(group));
    FirstRow(schema, withGroup, GROUP_MEMBERS, MemberRow(user, group));
  }

  /** What the dump of that database reads. */
  function OneMemberRead(user: Text): Contents {
    map t | t in BACKUP_TABLES :: if t == USERS then [UserRow(user)] else []
  }

  /** One user in one group, dumped in full: the database refuses its own dump. */
  lemma OwnDumpRefused(user: Text, group: Text)
    ensures CargobaySchema(InstalledSchema()) && Valid(InstalledSchema(), OneMember(user, group))
    ensures ReadOf(BACKUP_TABLES, OneMemberRead(user), OneMember(user, group))
    ensures Dumpable(InstalledSchema(), BACKUP_TABLES, OneMemberRead(user))
    ensures Relational.Run(InstalledSchema(), ReferencingRows, OneMember(user, group),
                           DumpText(InstalledSchema(), BACKUP_TABLES, OneMemberRead(user))) == None
  {
    hide WellFormed, Valid, InstalledSchema, Relational.Run, DumpText, Dumpable, CargobaySchema, ReadOf;
    InstalledSchemaIsCargobay();
    OneMemberValid(user, group);
    OneMemberReads(user, group);
    var tables := OneMember(user, group);
    CargobayRestore(InstalledSchema(), ReferencingRows, OneMemberRead(user), tables, tables);
  }

  lemma OneMemberReads(user: Text, group: Text)
    ensures ReadOf(BACKUP_TABLES, OneMemberRead(user), OneMember(user, group))
    ensures GROUP_MEMBERS in OneMember(user, group) && OneMember(user, group)[GROUP_MEMBERS] != multiset{}
  {
    hide InstalledSchema;
    GroupTablesNotBackedUp();
    MemberTablesDiffer();
    TableIsInstalled(USERS);
    TableIsInstalled(GROUPS);
    TableIsInstalled(GROUP_MEMBERS);
    assert MemberRow(user, group) in OneMember(user, group)[GROUP_MEMBERS];
    forall t | t in BACKUP_TABLES
      ensures t in OneMemberRead(user) && t in OneMember(user, group)
      ensures multiset(OneMemberRead(user)[t]) == OneMember(user, group)[t]
    {
      TableIsInstalled(t);
    }
  }

  // ----- a user created while a dump runs -----

  function GrantRow(user: Text, role: Text): Row {
    map[USER_ID := Str(user), ROLE_ID := Str(role)]
  }

  /** One user with one role; everything else is empty. */
  function OneGrant(user: Text, role: Text): Tables {
    TableIsInstalled(USERS);
    TableIsInstalled(USER_ROLES);
    WithRow(WithRow(EmptyTables(InstalledSchema()), USERS, UserRow(user)), USER_ROLES, GrantRow(user, role))
  }

  lemma GrantKeys(fk: ForeignKey)
    requires fk in FOREIGN_KEYS
    ensures fk.child == USER_ROLES ==> fk == GRANT_TO_USER
    ensures fk.child != USERS && GRANT_TO_USER in FOREIGN_KEYS && USERS != USER_ROLES
  {
  }

  const GRANT_TO_USER: ForeignKey := ForeignKey(USER_ROLES, USER_ID, USERS, USER_ID)

  lemma OneGrantValid(user: Text, role: Text)
    ensures WellFormed(InstalledSchema()) && Valid(InstalledSchema(), OneGrant(user, role))
  {
    hide WellFormed, Valid, KeyTable, InstalledSchema, RowFits, Holds, KeyedBy, KeyedByBoth;
    var schema := InstalledSchema();
    InstalledWellFormed();
    InstalledForeignKeys();
    EmptyTablesValid(schema);
    OwnerTables();
    OwnedTables();
    TableIsInstalled(USERS);
    TableIsInstalled(USER_ROLES);
    ColumnNamesDiffer();
    KeyRowFits(USER_ID, user);
    BothRowFits(USER_ID, ROLE_ID, user, role);
    GrantKeys(GRANT_TO_USER);
    var empty := EmptyTables(schema);
    var withUser := WithRow(empty, USERS, UserRow(user));
    forall fk | fk in schema.foreignKeys
      ensures fk.child != USERS
      ensures fk.child == USER_ROLES ==>
                fk.parent != USER_ROLES && fk.parent in withUser && Holds(fk, GrantRow(user, role), withUser[fk.parent])
    {
      GrantKeys(fk);
      if fk.child == USER_ROLES {
        MemberHolds(fk, GrantRow(user, role), withUser[USERS], UserRow(user));
      }
    }
    FirstRow(schema, empty, USERS, UserRow(user));
    FirstRow(schema, withUser, USER_ROLES, GrantRow(user, role));
  }

  /** The tables up to users are read before the user is created, the later ones after. */
  function GrowingViews(user: Text, role: Text): (views: seq<Tables>)
    ensures |views| == |BACKUP_TABLES|
  {
    seq(|BACKUP_TABLES|, k requires 0 <= k < |BACKUP_TABLES| =>
      if k <= 3 then EmptyTables(InstalledSchema()) else OneGrant(user, role))
  }

  function GrowingRead(user: Text, role: Text): Contents {
    map t | t in BACKUP_TABLES :: if t == USER_ROLES then [GrantRow(user, role)] else []
  }

  lemma UserTablesPlaced(k: nat)
    requires k < |BACKUP_TABLES|
    ensures BACKUP_TABLES[k] == USERS <==> k == 3
    ensures BACKUP_TABLES[k] == USER_ROLES <==> k == 4
  {
    BackupTablesDistinct();
  }

  lemma OneGrantAt(user: Text, role: Text, t: Text)
    requires t in BACKUP_TABLES
    ensures t in EmptyTables(InstalledSchema()) && EmptyTables(InstalledSchema())[t] == multiset{}
    ensures t in OneGrant(user, role)
    ensures OneGrant(user, role)[t] == if t == USERS then multiset{UserRow(user)}
                                       else if t == USER_ROLES then multiset{GrantRow(user, role)} else multiset{}
  {
    hide InstalledSchema, KeyTable, UserRow, GrantRow;
    TableIsInstalled(t);
    GrantKeys(GRANT_TO_USER);
  }

  lemma GrowingReadAt(user: Text, role: Text, t: Text)
    requires t in BACKUP_TABLES
    ensures t in GrowingRead(user, role)
    ensures multiset(GrowingRead(user, role)[t])
         == if t == USER_ROLES then multiset{GrantRow(user, role)} else multiset{}
  {
    hide GrantRow;
  }

  lemma GrowingViewAt(user: Text, role: Text, k: nat)
    requires k < |BACKUP_TABLES|
    ensures GrowingViews(user, role)[k] == if k <= 3 then EmptyTables(InstalledSchema()) else OneGrant(user, role)
  {
    hide InstalledSchema, OneGrant;
  }

  lemma GrowingReads(user: Text, role: Text)
    ensures ReadFrom(BACKUP_TABLES, GrowingRead(user, role), GrowingViews(user, role))
  {
    hide InstalledSchema, OneGrant, EmptyTables, GrowingRead, GrowingViews, GrantRow, UserRow;
    forall k | 0 <= k < |BACKUP_TABLES|
      ensures BACKUP_TABLES[k] in GrowingRead(user, role) && BACKUP_TABLES[k] in GrowingViews(user, role)[k]
      ensures multiset(GrowingRead(user, role)[BACKUP_TABLES[k]]) == GrowingViews(user, role)[k][BACKUP_TABLES[k]]
    {
      UserTablesPlaced(k);
      GrowingViewAt(user, role, k);
      GrowingReadAt(user, role, BACKUP_TABLES[k]);
      OneGrantAt(user, role, BACKUP_TABLES[k]);
    }
  }

  lemma GrowingViewsValid(user: Text, role: Text)
    ensures WellFormed(InstalledSchema()) && AllValid(InstalledSchema(), GrowingViews(user, role))
  {
    hide WellFormed, Valid, InstalledSchema;
    OneGrantValid(user, role);
    EmptyTablesValid(InstalledSchema());
  }

  lemma GrantNotClosed(schema: Schema, user: Text, role: Text)
    requires schema.foreignKeys == FOREIGN_KEYS && Dumpable(schema, BACKUP_TABLES, GrowingRead(user, role))
    ensures !Closed(schema, BACKUP_TABLES, GrowingRead(user, role))
  {
    hide GrowingRead, Dumpable;
    GrantKeys(GRANT_TO_USER);
    UserTablesPlaced(3);
    UserTablesPlaced(4);
    assert BACKUP_TABLES[3] in BACKUP_TABLES && BACKUP_TABLES[4] in BACKUP_TABLES;
    var row := GrantRow(user, role);
    var contents := GrowingRead(user, role);
    GrowingReadAt(user, role, USERS);
    GrowingReadAt(user, role, USER_ROLES);
    assert row in multiset(contents[USER_ROLES]) && RowsOf(contents, USERS) == multiset{};
    assert !Holds(GRANT_TO_USER, row, RowsOf(contents, USERS));
  }

  /**
   A user who is created and given a role between the reads of users and user_roles makes the
   dump one that no database takes, under either rule and whatever is in it.
   */
  lemma TornDumpRefused(user: Text, role: Text, rule: TruncateRule, target: Tables)
    requires WellFormed(InstalledSchema()) && Valid(InstalledSchema(), target)
    ensures AllValid(InstalledSchema(), GrowingViews(user, role))
    ensures ReadFrom(BACKUP_TABLES, GrowingRead(user, role), GrowingViews(user, role))
    ensures Dumpable(InstalledSchema(), BACKUP_TABLES, GrowingRead(user, role))
    ensures Relational.Run(InstalledSchema(), rule, target,
                           DumpText(InstalledSchema(), BACKUP_TABLES, GrowingRead(user, role))) == None
  {
    hide WellFormed, Valid, InstalledSchema, Relational.Run, DumpText, Dumpable, CargobaySchema, ReadFrom, AllValid,
         Closed, GrowingRead, GrowingViews;
    InstalledSchemaIsCargobay();
    BackupTablesAreOrdered(InstalledSchema());
    InstalledForeignKeys();
    GrowingViewsValid(user, role);
    GrowingReads(user, role);
    TornRestore(InstalledSchema(), rule, BACKUP_TABLES, GrowingRead(user, role), GrowingViews(user, role), target);
    GrantNotClosed(InstalledSchema(), user, role);
  }
}
