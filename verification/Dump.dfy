/** The logical dump: DumpStatements' plan, and what running it does to any database. */
module Dump {
  import opened Prelude
  import opened GoText
  import opened SqlText
  import opened Relational

  /** The rows of each table in the order its SELECT * returned them. */
  type Contents = map<Text, seq<Row>>

  /** What one atomic read of the backed-up tables may return. */
  predicate ReadOf(order: seq<Text>, contents: Contents, tables: Tables) {
    forall t | t in order :: t in contents && t in tables && multiset(contents[t]) == tables[t]
  }

  /** What reading the tables one after another may return, the k-th from the k-th view. */
  predicate ReadFrom(order: seq<Text>, contents: Contents, views: seq<Tables>) {
    |order| <= |views| && forall k | 0 <= k < |order| ::
      order[k] in contents && order[k] in views[k] && multiset(contents[order[k]]) == views[k][order[k]]
  }

  /** The FK-safe order of backupTables: parents strictly before children, no parent left out. */
  ghost predicate BackupOrder(schema: Schema, order: seq<Text>) {
    && Distinct(order)
    && (forall t | t in order :: t in schema.defs)
    && (forall fk, j | fk in schema.foreignKeys && 0 <= j < |order| && order[j] == fk.child ::
          exists i | 0 <= i < j :: order[i] == fk.parent)
  }

  // ----- the statements -----

  function Truncates(order: seq<Text>): seq<Text> {
    if order == [] then [] else Truncates(order[1..]) + [PrintTruncate(order[0])]
  }

  /** The INSERT printed for a row. */
  function InsertText(t: Text, columns: seq<Column>, row: Row): Text
    requires RowFits(columns, row)
  {
    FitsHasColumns(columns, row);
    PrintInsert(t, Names(columns), Values(columns, row))
  }

  function InsertsOf(t: Text, columns: seq<Column>, rows: seq<Row>): seq<Text>
    requires AllFit(columns, rows)
  {
    if rows == [] then []
    else [InsertText(t, columns, rows[0])] + InsertsOf(t, columns, rows[1..])
  }

  predicate Dumpable(schema: Schema, order: seq<Text>, contents: Contents) {
    forall t | t in order :: t in schema.defs && t in contents && AllFit(schema.defs[t].columns, contents[t])
  }

  function Inserts(schema: Schema, order: seq<Text>, contents: Contents): seq<Text>
    requires Dumpable(schema, order, contents)
  {
    if order == [] then []
    else InsertsOf(order[0], schema.defs[order[0]].columns, contents[order[0]]) + Inserts(schema, order[1..], contents)
  }

  function DumpText(schema: Schema, order: seq<Text>, contents: Contents): seq<Text>
    requires Dumpable(schema, order, contents)
  {
    Truncates(order) + Inserts(schema, order, contents)
  }

  lemma ReadsAreDumpable(schema: Schema, order: seq<Text>, contents: Contents, tables: Tables)
    requires WellFormed(schema) && Valid(schema, tables) && ReadOf(order, contents, tables)
    ensures Dumpable(schema, order, contents)
  {
    forall t | t in order
      ensures t in schema.defs && t in contents && AllFit(schema.defs[t].columns, contents[t])
    {
      forall r | r in contents[t]
        ensures RowFits(schema.defs[t].columns, r)
      {
        assert r in multiset(contents[t]);
      }
    }
  }

  // ----- what a restore does -----

  /** Whether nothing makes a TRUNCATE of the listed tables fail, for a target in this state. */
  predicate Unpinned(schema: Schema, rule: TruncateRule, order: seq<Text>, listed: seq<Text>, target: Tables)
    requires WellFormed(schema) && target.Keys == schema.defs.Keys
  {
    forall fk | fk in schema.foreignKeys :: fk.parent in listed ==>
      rule.ReferencingRows? && (fk.child in order || NoReferences(fk, target[fk.child]))
  }

  function Cleared(tables: Tables, listed: seq<Text>): Tables {
    map t | t in tables :: if t in listed then multiset{} else tables[t]
  }

  function RowsOf(contents: Contents, t: Text): multiset<Row> {
    if t in contents then multiset(contents[t]) else multiset{}
  }

  /** The target with the listed tables replaced by the dumped rows. */
  function Overlay(target: Tables, listed: seq<Text>, contents: Contents): Tables {
    map t | t in target :: if t in listed then RowsOf(contents, t) else target[t]
  }

  /** The children of a listed table come later in the list, so they are already empty. */
  lemma ChildrenAfter(schema: Schema, order: seq<Text>, k: nat, fk: ForeignKey)
    requires BackupOrder(schema, order) && k < |order|
    requires fk in schema.foreignKeys && fk.parent == order[k]
    ensures fk.child != order[k] && (fk.child in order ==> fk.child in order[k + 1..])
  {
    if fk.child in order {
      var j :| 0 <= j < |order| && order[j] == fk.child;
      var i :| 0 <= i < j && order[i] == fk.parent;
      assert i == k;
      assert order[k + 1..][j - k - 1] == fk.child;
    }
  }

  lemma ClearedStep(target: Tables, order: seq<Text>, k: nat)
    requires k < |order| && order[k] in target
    ensures Cleared(target, order[k + 1..])[order[k] := multiset{}] == Cleared(target, order[k..])
  {
    assert order[k..] == [order[k]] + order[k + 1..];
  }

  lemma ExecOfTruncate(schema: Schema, rule: TruncateRule, tables: Tables, t: Text)
    requires WellFormed(schema) && tables.Keys == schema.defs.Keys && t in tables
    ensures Exec(schema, rule, tables, PrintTruncate(t))
         == if TruncateAllowed(schema, rule, tables, t) then Some(tables[t := multiset{}]) else None
  {
    TruncateRoundTrip(t);
  }

  lemma TruncateStep(schema: Schema, rule: TruncateRule, order: seq<Text>, target: Tables, k: nat)
    requires WellFormed(schema) && target.Keys == schema.defs.Keys
    requires BackupOrder(schema, order) && k < |order|
    requires Unpinned(schema, rule, order, order[k + 1..], target)
    ensures Exec(schema, rule, Cleared(target, order[k + 1..]), PrintTruncate(order[k]))
         == if Unpinned(schema, rule, order, order[k..], target) then Some(Cleared(target, order[k..])) else None
  {
    ExecOfTruncate(schema, rule, Cleared(target, order[k + 1..]), order[k]);
    ClearedStep(target, order, k);
    forall fk | fk in schema.foreignKeys && fk.parent == order[k]
      ensures fk.child != order[k] && (fk.child in order ==> fk.child in order[k + 1..])
    {
      ChildrenAfter(schema, order, k, fk);
    }
    TruncateAllowedIff(schema, rule, order, target, k);
  }

  lemma TruncateAllowedIff(schema: Schema, rule: TruncateRule, order: seq<Text>, target: Tables, k: nat)
    requires WellFormed(schema) && target.Keys == schema.defs.Keys && k < |order|
    requires Unpinned(schema, rule, order, order[k + 1..], target)
    requires forall fk | fk in schema.foreignKeys && fk.parent == order[k] ::
      fk.child != order[k] && (fk.child in order ==> fk.child in order[k + 1..])
    ensures TruncateAllowed(schema, rule, Cleared(target, order[k + 1..]), order[k])
       <==> Unpinned(schema, rule, order, order[k..], target)
  {
    hide NoReferences, BackupOrder;
    var t, mid := order[k], Cleared(target, order[k + 1..]);
    assert order[k..] == [t] + order[k + 1..];
    assert forall x | x in order[k + 1..] :: x in order;
    forall fk | fk in schema.foreignKeys && fk.parent == t
      ensures NoReferences(fk, mid[fk.child]) <==> fk.child in order || NoReferences(fk, target[fk.child])
    {
      if fk.child in order {
        NothingReferences(fk);
      }
    }
  }

  lemma NothingReferences(fk: ForeignKey)
    ensures NoReferences(fk, multiset{})
  {
  }

  lemma UnpinnedShrinks(schema: Schema, rule: TruncateRule, order: seq<Text>, target: Tables, k: nat)
    requires WellFormed(schema) && target.Keys == schema.defs.Keys && k < |order|
    ensures Unpinned(schema, rule, order, order[k..], target) ==> Unpinned(schema, rule, order, order[k + 1..], target)
  {
    assert order[k..] == [order[k]] + order[k + 1..];
  }

  lemma {:induction false} TruncatesRun(schema: Schema, rule: TruncateRule, order: seq<Text>, target: Tables, k: nat)
    requires WellFormed(schema) && target.Keys == schema.defs.Keys
    requires BackupOrder(schema, order) && k <= |order|
    ensures Run(schema, rule, target, Truncates(order[k..]))
         == if Unpinned(schema, rule, order, order[k..], target) then Some(Cleared(target, order[k..])) else None
    decreases |order| - k
  {
    if k == |order| {
      assert order[k..] == [];
      assert Cleared(target, []) == target;
    } else {
      var before := Truncates(order[k + 1..]);
      assert Truncates(order[k..]) == before + [PrintTruncate(order[k])] by {
        assert order[k..][1..] == order[k + 1..];
      }
      TruncatesRun(schema, rule, order, target, k + 1);
      RunSnoc(schema, rule, target, before, PrintTruncate(order[k]));
      UnpinnedShrinks(schema, rule, order, target, k);
      if Unpinned(schema, rule, order, order[k + 1..], target) {
        TruncateStep(schema, rule, order, target, k);
      }
    }
  }

  lemma RunNothing(schema: Schema, rule: TruncateRule, tables: Tables)
    requires WellFormed(schema) && tables.Keys == schema.defs.Keys
    ensures Run(schema, rule, tables, []) == Some(tables)
  {
  }

  lemma RunCons(schema: Schema, rule: TruncateRule, tables: Tables, first: Text, rest: seq<Text>)
    requires WellFormed(schema) && tables.Keys == schema.defs.Keys
    ensures Run(schema, rule, tables, [first] + rest) ==
            match Exec(schema, rule, tables, first)
            case None => None
            case Some(next) => Run(schema, rule, next, rest)
  {
    assert ([first] + rest)[1..] == rest;
  }

  lemma RunSnoc(schema: Schema, rule: TruncateRule, tables: Tables, a: seq<Text>, last: Text)
    requires WellFormed(schema) && tables.Keys == schema.defs.Keys
    ensures Run(schema, rule, tables, a + [last]) ==
            match Run(schema, rule, tables, a)
            case None => None
            case Some(mid) => Exec(schema, rule, mid, last)
  {
    RunConcat(schema, rule, tables, a, [last]);
    match Run(schema, rule, tables, a) {
      case None =>
      case Some(mid) =>
        assert [last][1..] == [];
    }
  }

  // ----- the inserts -----

  /** Everything the insert phase relies on: a read of a valid source, in backup order. */
  ghost predicate Loading(schema: Schema, order: seq<Text>, contents: Contents, source: Tables, target: Tables) {
    && WellFormed(schema) && Valid(schema, source) && target.Keys == schema.defs.Keys
    && BackupOrder(schema, order)
    && ReadOf(order, contents, source)
    && Dumpable(schema, order, contents)
  }

  /** The target once the first i tables are loaded and the other listed ones are empty. */
  function LoadedTables(target: Tables, order: seq<Text>, contents: Contents, i: nat): (loaded: Tables)
    requires i <= |order|
    ensures loaded.Keys == target.Keys
  {
    map t | t in target ::
      if t in order[..i] then RowsOf(contents, t) else if t in order then multiset{} else target[t]
  }

  /** The table t with these rows added. */
  function WithRows(tables: Tables, t: Text, rows: seq<Row>): (more: Tables)
    requires t in tables
    ensures more.Keys == tables.Keys
  {
    tables[t := tables[t] + multiset(rows)]
  }

  lemma TwoRowsIn(rows: seq<Row>, lo: nat, hi: nat)
    requires lo < hi < |rows|
    ensures rows[lo] in multiset(rows) && rows[hi] in multiset(rows) - multiset{rows[lo]}
    ensures rows[hi] in multiset(rows) && rows[lo] in multiset(rows) - multiset{rows[hi]}
  {
    var a, b := rows[..lo + 1], rows[lo + 1..];
    assert rows == a + b && a == rows[..lo] + [rows[lo]];
    assert b[hi - lo - 1] == rows[hi] && rows[hi] in multiset(b);
    assert rows[lo] in multiset(a) && multiset(rows) == multiset(a) + multiset(b);
  }

  lemma NoClashBetweenRows(def: TableDef, rows: seq<Row>, p: nat, q: nat)
    requires NoClash(def, multiset(rows)) && p < |rows| && q < |rows| && p != q
    ensures !Clash(def, rows[p], rows[q])
  {
    hide Clash;
    TwoRowsIn(rows, if p < q then p else q, if p < q then q else p);
  }

  /** No row added before row j clashes with it. */
  lemma RowKeysFree(def: TableDef, rows: seq<Row>, j: nat)
    requires NoClash(def, multiset(rows)) && j < |rows|
    ensures forall r | r in multiset(rows[..j]) :: !Clash(def, r, rows[j]) && !Clash(def, rows[j], r)
  {
    hide Clash, NoClash;
    forall r | r in multiset(rows[..j])
      ensures !Clash(def, r, rows[j]) && !Clash(def, rows[j], r)
    {
      assert r in rows[..j];
      var p :| 0 <= p < j && rows[p] == r;
      NoClashBetweenRows(def, rows, p, j);
      NoClashBetweenRows(def, rows, j, p);
    }
  }

  lemma ParentLoaded(order: seq<Text>, contents: Contents, source: Tables, target: Tables, i: nat, p: nat)
    requires p < i < |order| && ReadOf(order, contents, source) && order[p] in target
    ensures LoadedTables(target, order, contents, i)[order[p]] == source[order[p]]
  {
    assert order[..i][p] == order[p];
    assert order[p] in order;
  }

  /** The parents of row j of table i are all loaded by then. */
  lemma RowParentsLoaded(schema: Schema, order: seq<Text>, contents: Contents, source: Tables, target: Tables,
                         i: nat, row: Row, fk: ForeignKey)
    requires Loading(schema, order, contents, source, target)
    requires i < |order| && row in contents[order[i]] && fk in schema.foreignKeys && fk.child == order[i]
    ensures fk.parent != order[i] && Holds(fk, row, LoadedTables(target, order, contents, i)[fk.parent])
  {
    hide Holds, TableValid, Dumpable, LoadedTables;
    var p :| 0 <= p < i && order[p] == fk.parent;
    ParentLoaded(order, contents, source, target, i, p);
    assert order[i] in order && row in multiset(contents[order[i]]);
  }

  lemma RowInsertable(schema: Schema, order: seq<Text>, contents: Contents, source: Tables, target: Tables, i: nat,
                      j: nat)
    requires Loading(schema, order, contents, source, target)
    requires i < |order| && j < |contents[order[i]]|
    ensures InsertAllowed(schema, WithRows(LoadedTables(target, order, contents, i), order[i], contents[order[i]][..j]),
                          order[i], contents[order[i]][j])
  {
    hide Clash, NoClash, Holds, RowFits;
    var t, rows := order[i], contents[order[i]];
    assert t !in order[..i];
    assert TableValid(schema.defs[t], source[t]);
    RowKeysFree(schema.defs[t], rows, j);
    assert LoadedTables(target, order, contents, i)[t] == multiset{};
    forall fk | fk in schema.foreignKeys && fk.child == t
      ensures fk.parent != t && Holds(fk, rows[j], LoadedTables(target, order, contents, i)[fk.parent])
    {
      RowParentsLoaded(schema, order, contents, source, target, i, rows[j], fk);
    }
  }

  /** A printed row goes in exactly when the constraints allow it. */
  lemma ExecOfInsert(schema: Schema, rule: TruncateRule, tables: Tables, t: Text, row: Row)
    requires WellFormed(schema) && tables.Keys == schema.defs.Keys && t in tables
    requires RowFits(schema.defs[t].columns, row)
    ensures Exec(schema, rule, tables, InsertText(t, schema.defs[t].columns, row))
         == if InsertAllowed(schema, tables, t, row) then Some(tables[t := tables[t] + multiset{row}]) else None
  {
    hide InsertAllowed, RowFits, KeyWellFormed, Exec, BuildRow;
    var columns := schema.defs[t].columns;
    assert IsName(t) && DefWellFormed(schema.defs[t]);
    BuildRowOfPrinted(columns, row);
    var values := Values(columns, row);
    InsertRoundTrip(t, Names(columns), values);
    ExecOfBuiltRow(schema, rule, tables, InsertText(t, columns, row), t, ConstantsOf(values), row);
  }

  lemma ExecOfBuiltRow(schema: Schema, rule: TruncateRule, tables: Tables, text: Text, t: Text,
                       values: seq<Constant>, row: Row)
    requires WellFormed(schema) && tables.Keys == schema.defs.Keys && t in tables
    requires ParseStatement(text) == Some(Insert(t, Names(schema.defs[t].columns), values))
    requires |values| == |schema.defs[t].columns|
    requires BuildRow(schema.defs[t].columns, Names(schema.defs[t].columns), values) == Some(row)
    ensures Exec(schema, rule, tables, text)
         == if InsertAllowed(schema, tables, t, row) then Some(tables[t := tables[t] + multiset{row}]) else None
  {
    hide InsertAllowed, BuildRow, ParseStatement, KeyWellFormed, IsName;
    assert DefWellFormed(schema.defs[t]);
  }

  ghost predicate AllInsertable(schema: Schema, tables: Tables, t: Text, rows: seq<Row>)
    requires WellFormed(schema) && tables.Keys == schema.defs.Keys && t in tables
  {
    forall j | 0 <= j < |rows| :: InsertAllowed(schema, WithRows(tables, t, rows[..j]), t, rows[j])
  }

  lemma InsertNextRow(schema: Schema, rule: TruncateRule, tables: Tables, t: Text, rows: seq<Row>, k: nat)
    requires WellFormed(schema) && tables.Keys == schema.defs.Keys && t in tables && k < |rows|
    requires AllInsertable(schema, tables, t, rows) && AllFit(schema.defs[t].columns, rows)
    ensures Exec(schema, rule, WithRows(tables, t, rows[..k]), InsertText(t, schema.defs[t].columns, rows[k]))
         == Some(WithRows(tables, t, rows[..k + 1]))
  {
    hide InsertAllowed, InsertText, Exec, RowFits;
    ExecOfInsert(schema, rule, WithRows(tables, t, rows[..k]), t, rows[k]);
    WithRowsSnoc(tables, t, rows, k);
  }

  lemma WithRowsSnoc(tables: Tables, t: Text, rows: seq<Row>, k: nat)
    requires t in tables && k < |rows|
    ensures WithRows(tables, t, rows[..k])[t := WithRows(tables, t, rows[..k])[t] + multiset{rows[k]}]
         == WithRows(tables, t, rows[..k + 1])
  {
    assert rows[..k + 1] == rows[..k] + [rows[k]];
    assert tables[t] + multiset(rows[..k]) + multiset{rows[k]} == tables[t] + multiset(rows[..k + 1]);
  }

  lemma AllFitSuffix(columns: seq<Column>, rows: seq<Row>, k: nat)
    requires AllFit(columns, rows) && k <= |rows|
    ensures AllFit(columns, rows[k..])
    ensures k < |rows| ==> RowFits(columns, rows[k])
  {
  }

  lemma NoInserts(t: Text, columns: seq<Column>)
    ensures AllFit(columns, []) && InsertsOf(t, columns, []) == []
  {
  }

  lemma InsertsOfCons(t: Text, columns: seq<Column>, rows: seq<Row>, k: nat)
    requires k < |rows| && AllFit(columns, rows)
    ensures InsertsOf(t, columns, rows[k..]) == [InsertText(t, columns, rows[k])] + InsertsOf(t, columns, rows[k + 1..])
  {
    assert rows[k..][1..] == rows[k + 1..];
  }

  lemma InsertsOfNone(schema: Schema, rule: TruncateRule, tables: Tables, t: Text, rows: seq<Row>)
    requires WellFormed(schema) && tables.Keys == schema.defs.Keys && t in tables
    requires AllFit(schema.defs[t].columns, rows[|rows|..])
    ensures Run(schema, rule, WithRows(tables, t, rows[..|rows|]), InsertsOf(t, schema.defs[t].columns, rows[|rows|..]))
         == Some(WithRows(tables, t, rows))
  {
    hide AllFit, Run, InsertsOf, WithRows, WellFormed;
    assert rows[..|rows|] == rows && rows[|rows|..] == [];
    NoInserts(t, schema.defs[t].columns);
    RunNothing(schema, rule, WithRows(tables, t, rows));
  }

  /** The first of the rows from k on goes in, and the rest follows. */
  lemma InsertsOfNext(schema: Schema, rule: TruncateRule, tables: Tables, t: Text, rows: seq<Row>, k: nat)
    requires WellFormed(schema) && tables.Keys == schema.defs.Keys && t in tables && k < |rows|
    requires AllFit(schema.defs[t].columns, rows) && RowFits(schema.defs[t].columns, rows[k])
    requires AllFit(schema.defs[t].columns, rows[k..]) && AllFit(schema.defs[t].columns, rows[k + 1..])
    requires Exec(schema, rule, WithRows(tables, t, rows[..k]), InsertText(t, schema.defs[t].columns, rows[k]))
          == Some(WithRows(tables, t, rows[..k + 1]))
    ensures Run(schema, rule, WithRows(tables, t, rows[..k]), InsertsOf(t, schema.defs[t].columns, rows[k..]))
         == Run(schema, rule, WithRows(tables, t, rows[..k + 1]), InsertsOf(t, schema.defs[t].columns, rows[k + 1..]))
  {
    hide AllFit, InsertText, Exec, Run, InsertsOf, WithRows, WellFormed, RowFits;
    var columns, before := schema.defs[t].columns, WithRows(tables, t, rows[..k]);
    InsertsOfCons(t, columns, rows, k);
    RunCons(schema, rule, before, InsertText(t, columns, rows[k]), InsertsOf(t, columns, rows[k + 1..]));
  }

  lemma {:induction false} InsertsOfRun(schema: Schema, rule: TruncateRule, tables: Tables, t: Text, rows: seq<Row>,
                                        k: nat)
    requires WellFormed(schema) && tables.Keys == schema.defs.Keys && t in tables && k <= |rows|
    requires AllFit(schema.defs[t].columns, rows) && AllFit(schema.defs[t].columns, rows[k..])
    requires AllInsertable(schema, tables, t, rows)
    ensures Run(schema, rule, WithRows(tables, t, rows[..k]), InsertsOf(t, schema.defs[t].columns, rows[k..]))
         == Some(WithRows(tables, t, rows))
    decreases |rows| - k
  {
    hide AllInsertable, AllFit, InsertText, Exec, Run, InsertsOf, WithRows, WellFormed, RowFits;
    if k == |rows| {
      InsertsOfNone(schema, rule, tables, t, rows);
    } else {
      AllFitSuffix(schema.defs[t].columns, rows, k);
      AllFitSuffix(schema.defs[t].columns, rows, k + 1);
      InsertNextRow(schema, rule, tables, t, rows, k);
      InsertsOfNext(schema, rule, tables, t, rows, k);
      InsertsOfRun(schema, rule, tables, t, rows, k + 1);
    }
  }

  lemma WithNoRows(tables: Tables, t: Text)
    requires t in tables
    ensures WithRows(tables, t, []) == tables
  {
    assert tables[t] + multiset([]) == tables[t];
  }

  lemma LoadedTablesStep(target: Tables, order: seq<Text>, contents: Contents, i: nat)
    requires i < |order| && Distinct(order) && order[i] in contents && order[i] in target
    ensures order[i] in LoadedTables(target, order, contents, i)
    ensures WithRows(LoadedTables(target, order, contents, i), order[i], contents[order[i]])
         == LoadedTables(target, order, contents, i + 1)
  {
    hide LoadedTables;
    var before, loaded := LoadedTables(target, order, contents, i), LoadedTables(target, order, contents, i + 1);
    var after := WithRows(before, order[i], contents[order[i]]);
    forall u | u in target
      ensures after[u] == loaded[u]
    {
      LoadedTableStep(target, order, contents, i, u);
    }
    assert after.Keys == loaded.Keys == target.Keys;
    assert after == loaded;
  }

  lemma LoadedTableStep(target: Tables, order: seq<Text>, contents: Contents, i: nat, u: Text)
    requires i < |order| && Distinct(order) && order[i] in contents && order[i] in target && u in target
    ensures LoadedTables(target, order, contents, i + 1)[u]
         == if u == order[i] then LoadedTables(target, order, contents, i)[u] + multiset(contents[u])
            else LoadedTables(target, order, contents, i)[u]
  {
    assert order[i] !in order[..i];
    assert order[..i + 1] == order[..i] + [order[i]];
    if u == order[i] {
      assert multiset{} + multiset(contents[u]) == multiset(contents[u]);
    }
  }

  lemma InsertsOneTable(schema: Schema, rule: TruncateRule, order: seq<Text>, contents: Contents,
                        source: Tables, target: Tables, i: nat)
    requires Loading(schema, order, contents, source, target) && i < |order|
    ensures Run(schema, rule, LoadedTables(target, order, contents, i),
                InsertsOf(order[i], schema.defs[order[i]].columns, contents[order[i]]))
         == Some(LoadedTables(target, order, contents, i + 1))
  {
    var t, before := order[i], LoadedTables(target, order, contents, i);
    forall j | 0 <= j < |contents[t]|
      ensures InsertAllowed(schema, WithRows(before, t, contents[t][..j]), t, contents[t][j])
    {
      RowInsertable(schema, order, contents, source, target, i, j);
    }
    AllFitSuffix(schema.defs[t].columns, contents[t], 0);
    InsertsOfRun(schema, rule, before, t, contents[t], 0);
    WithNoRows(before, t);
    assert contents[t][..0] == [] && contents[t][0..] == contents[t];
    LoadedTablesStep(target, order, contents, i);
  }

  lemma {:induction false} InsertsRun(schema: Schema, rule: TruncateRule, order: seq<Text>, contents: Contents,
                                      source: Tables, target: Tables, i: nat)
    requires Loading(schema, order, contents, source, target) && i <= |order|
    ensures Dumpable(schema, order[i..], contents)
    ensures Run(schema, rule, LoadedTables(target, order, contents, i), Inserts(schema, order[i..], contents))
         == Some(LoadedTables(target, order, contents, |order|))
    decreases |order| - i
  {
    assert forall t | t in order[i..] :: t in order;
    if i == |order| {
      assert order[i..] == [];
    } else {
      InsertsRun(schema, rule, order, contents, source, target, i + 1);
      InsertsCons(schema, order, contents, i);
      InsertsOneTable(schema, rule, order, contents, source, target, i);
      RunConcat(schema, rule, LoadedTables(target, order, contents, i),
                InsertsOf(order[i], schema.defs[order[i]].columns, contents[order[i]]),
                Inserts(schema, order[i + 1..], contents));
    }
  }

  lemma InsertsCons(schema: Schema, order: seq<Text>, contents: Contents, i: nat)
    requires i < |order| && Dumpable(schema, order[i..], contents) && Dumpable(schema, order[i + 1..], contents)
    ensures order[i] in order[i..]
    ensures Inserts(schema, order[i..], contents)
         == InsertsOf(order[i], schema.defs[order[i]].columns, contents[order[i]])
            + Inserts(schema, order[i + 1..], contents)
  {
    assert order[i..][0] == order[i] && order[i..][1..] == order[i + 1..];
  }

  lemma LoadedNone(target: Tables, order: seq<Text>, contents: Contents)
    ensures LoadedTables(target, order, contents, 0) == Cleared(target, order)
  {
  }

  lemma LoadedAll(target: Tables, order: seq<Text>, contents: Contents)
    ensures LoadedTables(target, order, contents, |order|) == Overlay(target, order, contents)
  {
    assert order[..|order|] == order;
  }

  /**
   Restoring a dump of any valid source into any target of the same schema replaces exactly
   the backed-up tables, and it succeeds exactly when nothing pins one of them.
   */
  lemma RestoreOutcome(schema: Schema, rule: TruncateRule, order: seq<Text>, contents: Contents,
                       source: Tables, target: Tables)
    requires WellFormed(schema) && Valid(schema, source) && target.Keys == schema.defs.Keys
    requires BackupOrder(schema, order) && ReadOf(order, contents, source)
    ensures Dumpable(schema, order, contents)
    ensures Run(schema, rule, target, DumpText(schema, order, contents))
         == if Unpinned(schema, rule, order, order, target) then Some(Overlay(target, order, contents)) else None
  {
    ReadsAreDumpable(schema, order, contents, source);
    assert order[0..] == order;
    TruncatesRun(schema, rule, order, target, 0);
    InsertsRun(schema, rule, order, contents, source, target, 0);
    LoadedNone(target, order, contents);
    LoadedAll(target, order, contents);
    RunConcat(schema, rule, target, Truncates(order), Inserts(schema, order, contents));
  }

  /** Every prefix of a statement list that runs leaves a database that meets every constraint. */
  lemma {:induction false} RunKeepsValid(schema: Schema, rule: TruncateRule, tables: Tables, texts: seq<Text>, k: nat)
    requires WellFormed(schema) && Valid(schema, tables) && k <= |texts|
    requires Run(schema, rule, tables, texts).Some?
    ensures Run(schema, rule, tables, texts[..k]).Some?
    ensures Valid(schema, Run(schema, rule, tables, texts[..k]).value)
  {
    hide Run, Exec, TableValid, Integrity;
    assert texts == texts[..k] + texts[k..];
    RunConcat(schema, rule, tables, texts[..k], texts[k..]);
    if k == 0 {
      assert texts[..0] == [];
      RunNothing(schema, rule, tables);
    } else {
      RunKeepsValid(schema, rule, tables, texts, k - 1);
      assert texts[..k] == texts[..k - 1] + [texts[k - 1]];
      RunSnoc(schema, rule, tables, texts[..k - 1], texts[k - 1]);
      ExecKeepsValid(schema, rule, Run(schema, rule, tables, texts[..k - 1]).value, texts[k - 1]);
    }
  }
}
