/**
 Restoring a dump whose tables were read one after another while other sessions wrote: the
 code reads them outside any transaction.
 */
module TornDump {
  import opened Prelude
  import opened GoText
  import opened Relational
  import opened Dump

  /** Every row read finds its parents among the rows read. */
  ghost predicate Closed(schema: Schema, order: seq<Text>, contents: Contents)
    requires Dumpable(schema, order, contents)
  {
    forall fk, row | fk in schema.foreignKeys && fk.child in order && row in contents[fk.child] ::
      Holds(fk, row, RowsOf(contents, fk.parent))
  }

  ghost predicate AllValid(schema: Schema, views: seq<Tables>)
    requires WellFormed(schema)
  {
    forall v | v in views :: Valid(schema, v)
  }

  function EmptyTables(schema: Schema): (tables: Tables)
    ensures tables.Keys == schema.defs.Keys
  {
    map t | t in schema.defs :: multiset{}
  }

  lemma EmptyTablesValid(schema: Schema)
    requires WellFormed(schema)
    ensures Valid(schema, EmptyTables(schema))
  {
    hide KeyWellFormed;
  }

  lemma TableReadValid(schema: Schema, order: seq<Text>, contents: Contents, views: seq<Tables>, t: Text)
    requires WellFormed(schema) && AllValid(schema, views) && ReadFrom(order, contents, views) && t in order
    ensures t in contents && t in schema.defs && TableValid(schema.defs[t], multiset(contents[t]))
  {
    hide TableValid, Integrity, WellFormed;
    var k :| 0 <= k < |order| && order[k] == t;
    assert views[k] in views;
  }

  lemma ReadFromIsDumpable(schema: Schema, order: seq<Text>, contents: Contents, views: seq<Tables>)
    requires WellFormed(schema) && AllValid(schema, views) && ReadFrom(order, contents, views)
    ensures Dumpable(schema, order, contents)
  {
    hide RowFits, NoClash, WellFormed, AllValid, ReadFrom;
    forall t | t in order
      ensures t in schema.defs && t in contents && AllFit(schema.defs[t].columns, contents[t])
    {
      TableReadValid(schema, order, contents, views, t);
      forall r | r in contents[t]
        ensures RowFits(schema.defs[t].columns, r)
      {
        assert r in multiset(contents[t]);
      }
    }
  }

  // ----- a closed dump is a dump of some valid database -----

  lemma ClosedHolds(schema: Schema, order: seq<Text>, contents: Contents, fk: ForeignKey, row: Row)
    requires WellFormed(schema) && BackupOrder(schema, order) && Dumpable(schema, order, contents)
    requires Closed(schema, order, contents) && fk in schema.foreignKeys
    requires row in Overlay(EmptyTables(schema), order, contents)[fk.child]
    ensures Holds(fk, row, Overlay(EmptyTables(schema), order, contents)[fk.parent])
  {
    hide Holds;
    assert fk.child in order && row in contents[fk.child];
    var j :| 0 <= j < |order| && order[j] == fk.child;
    var i :| 0 <= i < j && order[i] == fk.parent;
    assert fk.parent in order;
  }

  lemma ClosedIntegrity(schema: Schema, order: seq<Text>, contents: Contents)
    requires WellFormed(schema) && BackupOrder(schema, order) && Dumpable(schema, order, contents)
    requires Closed(schema, order, contents)
    ensures Integrity(schema, Overlay(EmptyTables(schema), order, contents))
  {
    hide Holds, Overlay, Closed, Dumpable, BackupOrder;
    var source := Overlay(EmptyTables(schema), order, contents);
    OverlayKeys(EmptyTables(schema), order, contents);
    assert forall fk | fk in schema.foreignKeys :: KeyWellFormed(schema.defs, fk);
    forall fk, row | fk in schema.foreignKeys && row in source[fk.child]
      ensures Holds(fk, row, source[fk.parent])
    {
      ClosedHolds(schema, order, contents, fk, row);
    }
  }

  lemma OverlayKeys(target: Tables, order: seq<Text>, contents: Contents)
    ensures Overlay(target, order, contents).Keys == target.Keys
  {
  }

  lemma OverlayOf(schema: Schema, order: seq<Text>, contents: Contents, t: Text)
    requires t in schema.defs && (t in order ==> t in contents)
    ensures t in Overlay(EmptyTables(schema), order, contents)
    ensures Overlay(EmptyTables(schema), order, contents)[t] == if t in order then multiset(contents[t]) else multiset{}
  {
  }

  lemma ClosedTables(schema: Schema, order: seq<Text>, contents: Contents, views: seq<Tables>, t: Text)
    requires WellFormed(schema) && AllValid(schema, views) && ReadFrom(order, contents, views) && t in schema.defs
    ensures t in Overlay(EmptyTables(schema), order, contents)
    ensures TableValid(schema.defs[t], Overlay(EmptyTables(schema), order, contents)[t])
  {
    hide TableValid, WellFormed, AllValid, ReadFrom, Overlay;
    if t in order {
      TableReadValid(schema, order, contents, views, t);
    } else {
      NoRowsValid(schema.defs[t]);
    }
    OverlayOf(schema, order, contents, t);
  }

  lemma ClosedIsValid(schema: Schema, order: seq<Text>, contents: Contents, views: seq<Tables>)
    requires WellFormed(schema) && AllValid(schema, views) && ReadFrom(order, contents, views)
    requires BackupOrder(schema, order) && Dumpable(schema, order, contents) && Closed(schema, order, contents)
    ensures Valid(schema, Overlay(EmptyTables(schema), order, contents))
    ensures ReadOf(order, contents, Overlay(EmptyTables(schema), order, contents))
  {
    hide TableValid, WellFormed, AllValid, ReadFrom, Closed, Integrity, Overlay, AllFit;
    var source := Overlay(EmptyTables(schema), order, contents);
    OverlayKeys(EmptyTables(schema), order, contents);
    forall t | t in source
      ensures TableValid(schema.defs[t], source[t])
    {
      ClosedTables(schema, order, contents, views, t);
    }
    ClosedIntegrity(schema, order, contents);
    forall t | t in order
      ensures t in contents && t in source && multiset(contents[t]) == source[t]
    {
      OverlayOf(schema, order, contents, t);
    }
  }

  lemma NoRowsValid(def: TableDef)
    ensures TableValid(def, multiset{})
  {
  }

  // ----- a run that succeeds has loaded the rows -----

  /** In a run that succeeds the first of the rows from k on goes in. */
  lemma InsertsOfGoesOn(schema: Schema, rule: TruncateRule, tables: Tables, t: Text, rows: seq<Row>, k: nat)
    requires WellFormed(schema) && tables.Keys == schema.defs.Keys && t in tables && k < |rows|
    requires AllFit(schema.defs[t].columns, rows)
    requires AllFit(schema.defs[t].columns, rows[k..]) && AllFit(schema.defs[t].columns, rows[k + 1..])
    requires Run(schema, rule, WithRows(tables, t, rows[..k]), InsertsOf(t, schema.defs[t].columns, rows[k..])).Some?
    ensures Run(schema, rule, WithRows(tables, t, rows[..k]), InsertsOf(t, schema.defs[t].columns, rows[k..]))
         == Run(schema, rule, WithRows(tables, t, rows[..k + 1]), InsertsOf(t, schema.defs[t].columns, rows[k + 1..]))
  {
    hide AllFit, InsertText, Exec, Run, InsertsOf, WithRows, WellFormed, RowFits;
    var columns, before := schema.defs[t].columns, WithRows(tables, t, rows[..k]);
    AllFitSuffix(columns, rows, k);
    InsertsOfCons(t, columns, rows, k);
    RunCons(schema, rule, before, InsertText(t, columns, rows[k]), InsertsOf(t, columns, rows[k + 1..]));
    InsertedRow(schema, rule, tables, t, rows, k);
    InsertsOfNext(schema, rule, tables, t, rows, k);
  }

  lemma {:induction false} InsertsOfResult(schema: Schema, rule: TruncateRule, tables: Tables, t: Text, rows: seq<Row>,
                                           k: nat)
    requires WellFormed(schema) && tables.Keys == schema.defs.Keys && t in tables && k <= |rows|
    requires AllFit(schema.defs[t].columns, rows) && AllFit(schema.defs[t].columns, rows[k..])
    requires Run(schema, rule, WithRows(tables, t, rows[..k]), InsertsOf(t, schema.defs[t].columns, rows[k..])).Some?
    ensures Run(schema, rule, WithRows(tables, t, rows[..k]), InsertsOf(t, schema.defs[t].columns, rows[k..]))
         == Some(WithRows(tables, t, rows))
    decreases |rows| - k
  {
    hide AllFit, Run, InsertsOf, WithRows, WellFormed;
    if k == |rows| {
      InsertsOfNone(schema, rule, tables, t, rows);
    } else {
      AllFitSuffix(schema.defs[t].columns, rows, k + 1);
      InsertsOfGoesOn(schema, rule, tables, t, rows, k);
      InsertsOfResult(schema, rule, tables, t, rows, k + 1);
    }
  }

  lemma InsertedRow(schema: Schema, rule: TruncateRule, tables: Tables, t: Text, rows: seq<Row>, k: nat)
    requires WellFormed(schema) && tables.Keys == schema.defs.Keys && t in tables && k < |rows|
    requires RowFits(schema.defs[t].columns, rows[k])
    requires Exec(schema, rule, WithRows(tables, t, rows[..k]), InsertText(t, schema.defs[t].columns, rows[k])).Some?
    ensures Exec(schema, rule, WithRows(tables, t, rows[..k]), InsertText(t, schema.defs[t].columns, rows[k]))
         == Some(WithRows(tables, t, rows[..k + 1]))
  {
    hide InsertAllowed, InsertText, Exec, RowFits;
    ExecOfInsert(schema, rule, WithRows(tables, t, rows[..k]), t, rows[k]);
    WithRowsSnoc(tables, t, rows, k);
  }

  lemma InsertsOneResult(schema: Schema, rule: TruncateRule, order: seq<Text>, contents: Contents, target: Tables,
                         i: nat)
    requires WellFormed(schema) && target.Keys == schema.defs.Keys && Distinct(order) && i < |order|
    requires Dumpable(schema, order, contents)
    requires Run(schema, rule, LoadedTables(target, order, contents, i),
                 InsertsOf(order[i], schema.defs[order[i]].columns, contents[order[i]])).Some?
    ensures Run(schema, rule, LoadedTables(target, order, contents, i),
                InsertsOf(order[i], schema.defs[order[i]].columns, contents[order[i]]))
         == Some(LoadedTables(target, order, contents, i + 1))
  {
    hide Run, InsertsOf, AllFit, LoadedTables, WithRows, WellFormed;
    var t, before := order[i], LoadedTables(target, order, contents, i);
    assert t in order;
    WithNoRows(before, t);
    assert contents[t][..0] == [] && contents[t][0..] == contents[t];
    AllFitSuffix(schema.defs[t].columns, contents[t], 0);
    InsertsOfResult(schema, rule, before, t, contents[t], 0);
    LoadedTablesStep(target, order, contents, i);
  }

  lemma DumpableFrom(schema: Schema, order: seq<Text>, contents: Contents, i: nat)
    requires Dumpable(schema, order, contents) && i <= |order|
    ensures Dumpable(schema, order[i..], contents)
  {
    hide AllFit;
    assert forall t | t in order[i..] :: t in order;
  }

  lemma {:induction false} InsertsResult(schema: Schema, rule: TruncateRule, order: seq<Text>, contents: Contents,
                                         target: Tables, i: nat)
    requires WellFormed(schema) && target.Keys == schema.defs.Keys && Distinct(order) && i <= |order|
    requires Dumpable(schema, order, contents) && Dumpable(schema, order[i..], contents)
    requires Run(schema, rule, LoadedTables(target, order, contents, i), Inserts(schema, order[i..], contents)).Some?
    ensures Run(schema, rule, LoadedTables(target, order, contents, i), Inserts(schema, order[i..], contents))
         == Some(LoadedTables(target, order, contents, |order|))
    decreases |order| - i
  {
    hide Run, Inserts, InsertsOf, AllFit, LoadedTables, WellFormed;
    var before := LoadedTables(target, order, contents, i);
    if i == |order| {
      assert order[i..] == [];
      NoTables(schema, contents);
      RunNothing(schema, rule, before);
    } else {
      DumpableFrom(schema, order, contents, i + 1);
      InsertsCons(schema, order, contents, i);
      assert order[i] in order;
      var here := InsertsOf(order[i], schema.defs[order[i]].columns, contents[order[i]]);
      var rest := Inserts(schema, order[i + 1..], contents);
      RunConcat(schema, rule, before, here, rest);
      InsertsOneResult(schema, rule, order, contents, target, i);
      InsertsResult(schema, rule, order, contents, target, i + 1);
    }
  }

  lemma NoTables(schema: Schema, contents: Contents)
    ensures Dumpable(schema, [], contents) && Inserts(schema, [], contents) == []
  {
  }

  /** Whatever a run of the whole dump leads to is the target with the listed tables as read. */
  lemma RunIsOverlay(schema: Schema, rule: TruncateRule, order: seq<Text>, contents: Contents, target: Tables)
    requires WellFormed(schema) && target.Keys == schema.defs.Keys
    requires BackupOrder(schema, order) && Dumpable(schema, order, contents)
    requires Run(schema, rule, target, DumpText(schema, order, contents)).Some?
    ensures Unpinned(schema, rule, order, order, target)
    ensures Run(schema, rule, target, DumpText(schema, order, contents)) == Some(Overlay(target, order, contents))
  {
    hide Run, Inserts, Truncates, LoadedTables, Overlay, Cleared, Unpinned, WellFormed;
    assert order[0..] == order;
    RunConcat(schema, rule, target, Truncates(order), Inserts(schema, order, contents));
    TruncatesRun(schema, rule, order, target, 0);
    LoadedNone(target, order, contents);
    LoadedAll(target, order, contents);
    InsertsResult(schema, rule, order, contents, target, 0);
  }

  lemma OverlayHolds(schema: Schema, order: seq<Text>, contents: Contents, target: Tables, fk: ForeignKey, row: Row)
    requires WellFormed(schema) && BackupOrder(schema, order) && Dumpable(schema, order, contents)
    requires target.Keys == schema.defs.Keys && Integrity(schema, Overlay(target, order, contents))
    requires fk in schema.foreignKeys && fk.child in order && row in contents[fk.child]
    ensures Holds(fk, row, RowsOf(contents, fk.parent))
  {
    hide Holds;
    var j :| 0 <= j < |order| && order[j] == fk.child;
    var i :| 0 <= i < j && order[i] == fk.parent;
    assert fk.parent in order && row in multiset(contents[fk.child]);
    assert row in Overlay(target, order, contents)[fk.child];
  }

  lemma RunIsClosed(schema: Schema, rule: TruncateRule, order: seq<Text>, contents: Contents, target: Tables)
    requires WellFormed(schema) && Valid(schema, target)
    requires BackupOrder(schema, order) && Dumpable(schema, order, contents)
    requires Run(schema, rule, target, DumpText(schema, order, contents)).Some?
    ensures Closed(schema, order, contents)
  {
    hide Run, DumpText, Overlay, Holds, Integrity, TableValid, WellFormed;
    var texts := DumpText(schema, order, contents);
    assert texts[..|texts|] == texts;
    RunIsOverlay(schema, rule, order, contents, target);
    RunKeepsValid(schema, rule, target, texts, |texts|);
    forall fk, row | fk in schema.foreignKeys && fk.child in order && row in contents[fk.child]
      ensures Holds(fk, row, RowsOf(contents, fk.parent))
    {
      OverlayHolds(schema, order, contents, target, fk, row);
    }
  }

  /**
   A dump whose tables were each read from a valid database, if not the same one, restores
   into a target exactly when nothing pins a listed table and every row read finds its parents
   among the rows read; then the listed tables hold exactly what was read.
   */
  lemma TornRestore(schema: Schema, rule: TruncateRule, order: seq<Text>, contents: Contents, views: seq<Tables>,
                    target: Tables)
    requires WellFormed(schema) && AllValid(schema, views) && Valid(schema, target)
    requires BackupOrder(schema, order) && ReadFrom(order, contents, views)
    ensures Dumpable(schema, order, contents)
    ensures Run(schema, rule, target, DumpText(schema, order, contents))
         == if Unpinned(schema, rule, order, order, target) && Closed(schema, order, contents)
            then Some(Overlay(target, order, contents)) else None
  {
    hide Run, DumpText, Overlay, Closed, Unpinned, Valid, WellFormed, AllValid, ReadFrom, Dumpable;
    ReadFromIsDumpable(schema, order, contents, views);
    ValidHasTables(schema, target);
    if Closed(schema, order, contents) {
      ClosedIsValid(schema, order, contents, views);
      RestoreOutcome(schema, rule, order, contents, Overlay(EmptyTables(schema), order, contents), target);
    } else if Run(schema, rule, target, DumpText(schema, order, contents)).Some? {
      RunIsClosed(schema, rule, order, contents, target);
      assert false;
    }
  }

  lemma ValidHasTables(schema: Schema, tables: Tables)
    requires WellFormed(schema) && Valid(schema, tables)
    ensures tables.Keys == schema.defs.Keys
  {
  }

  /** A dump read at one moment is closed. */
  lemma AtomicReadIsClosed(schema: Schema, order: seq<Text>, contents: Contents, source: Tables)
    requires WellFormed(schema) && Valid(schema, source) && BackupOrder(schema, order)
    requires ReadOf(order, contents, source)
    ensures Dumpable(schema, order, contents) && Closed(schema, order, contents)
  {
    ReadsAreDumpable(schema, order, contents, source);
    hide Holds, TableValid;
    forall fk, row | fk in schema.foreignKeys && fk.child in order && row in contents[fk.child]
      ensures Holds(fk, row, RowsOf(contents, fk.parent))
    {
      var j :| 0 <= j < |order| && order[j] == fk.child;
      var i :| 0 <= i < j && order[i] == fk.parent;
      assert fk.parent in order && row in multiset(contents[fk.child]);
    }
  }
}
