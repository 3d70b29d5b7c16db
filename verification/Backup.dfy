/** The database as the backup package drives it, and the backup package itself. */
module Backup {
  import opened Prelude
  import opened GoText
  import opened SqlText
  import opened Relational
  import opened Dump
  import opened TornDump
  import Archive

  class Database {
    const schema: Schema
    const rule: TruncateRule
    /** backupTables */
    const order: seq<Text>
    var tables: Tables

    constructor (schema: Schema, rule: TruncateRule, order: seq<Text>, tables: Tables)
      requires WellFormed(schema) && Relational.Valid(schema, tables) && BackupOrder(schema, order)
      ensures Valid() && this.schema == schema && this.rule == rule && this.order == order && this.tables == tables
    {
      this.schema, this.rule, this.order, this.tables := schema, rule, order, tables;
    }

    ghost predicate Valid()
      reads this
    {
      WellFormed(schema) && Relational.Valid(schema, tables) && BackupOrder(schema, order)
    }

    /** SELECT * without ORDER BY: every row the table has at that moment, in whatever order. */
    static method SelectAll(table: multiset<Row>) returns (rows: seq<Row>)
      ensures multiset(rows) == table
    {
      rows := [];
      var left := table;
      while left != multiset{}
        invariant multiset(rows) + left == table
        decreases |left|
      {
        var r :| r in left;
        rows := rows + [r];
        left := left - multiset{r};
      }
    }

    /** The loop over one table's rows. */
    method PrintRows(t: Text, columns: seq<Column>, rows: seq<Row>) returns (statements: seq<Text>)
      requires AllFit(columns, rows)
      ensures statements == InsertsOf(t, columns, rows)
    {
      hide InsertText, RowFits;
      statements := [];
      for i := 0 to |rows|
        invariant AllFit(columns, rows[..i])
        invariant statements == InsertsOf(t, columns, rows[..i])
      {
        assert rows[..i + 1] == rows[..i] + [rows[i]];
        InsertsOfSnoc(t, columns, rows[..i], rows[i]);
        statements := statements + [InsertText(t, columns, rows[i])];
      }
      assert rows[..|rows|] == rows;
    }

    method DumpTable(t: Text, view: Tables) returns (statements: seq<Text>, rows: seq<Row>)
      requires WellFormed(schema) && Relational.Valid(schema, view) && t in view
      ensures multiset(rows) == view[t]
      ensures AllFit(schema.defs[t].columns, rows)
      ensures statements == InsertsOf(t, schema.defs[t].columns, rows)
    {
      rows := SelectAll(view[t]);
      RowsFit(schema, view, t, rows);
      statements := PrintRows(t, schema.defs[t].columns, rows);
    }

    /** The first loop of DumpStatements: child to parent. */
    method TruncateStatements() returns (statements: seq<Text>)
      ensures statements == Truncates(order)
    {
      statements := [];
      var i := |order|;
      while i > 0
        invariant 0 <= i <= |order|
        invariant statements == Truncates(order[i..])
      {
        i := i - 1;
        assert order[i..][1..] == order[i + 1..];
        statements := statements + [PrintTruncate(order[i])];
      }
      assert order[0..] == order;
    }

    /**
     The second loop: parent to child, one INSERT per row. Each table is read by a statement
     of its own, the k-th from the k-th view; when the views run out a read has failed.
     */
    method InsertStatements(views: seq<Tables>) returns (ok: bool, statements: seq<Text>, contents: Contents)
      requires Valid() && AllValid(schema, views)
      ensures ok <==> |order| <= |views|
      ensures ok ==> ReadFrom(order, contents, views) && Dumpable(schema, order, contents)
      ensures ok ==> statements == Inserts(schema, order, contents)
    {
      hide Inserts, InsertsOf, ReadFrom, Dumpable, TableValid, Integrity, InsertText;
      statements, contents := [], map[];
      NothingRead(schema, views);
      for k := 0 to |order|
        invariant k <= |views| && ReadFrom(order[..k], contents, views) && Dumpable(schema, order[..k], contents)
        invariant statements == Inserts(schema, order[..k], contents)
      {
        if k == |views| {
          return false, statements, contents;
        }
        assert order[..k + 1] == order[..k] + [order[k]];
        assert views[k] in views;
        var t := order[k];
        var texts, rows := DumpTable(t, views[k]);
        InsertsSnoc(schema, order[..k], contents, t, rows);
        ReadSnoc(order[..k], contents, views, t, rows);
        contents := contents[t := rows];
        statements := statements + texts;
      }
      assert order[..|order|] == order;
      return true, statements, contents;
    }

    /** A table that cannot be read fails the whole dump. */
    method DumpStatements(views: seq<Tables>) returns (ok: bool, statements: seq<Text>, contents: Contents)
      requires Valid() && AllValid(schema, views)
      ensures ok <==> |order| <= |views|
      ensures ok ==> ReadFrom(order, contents, views) && Dumpable(schema, order, contents)
      ensures ok ==> statements == DumpText(schema, order, contents)
    {
      hide Valid, AllValid, ReadFrom, Dumpable, Inserts, Truncates;
      var truncates := TruncateStatements();
      var inserts;
      ok, inserts, contents := InsertStatements(views);
      statements := truncates + inserts;
    }

    /** One transaction; commits says whether the final COMMIT succeeds. */
    method RestoreStatements(statements: seq<Text>, commits: bool) returns (ok: bool)
      requires Valid()
      modifies this
      ensures ok <==> commits && Run(schema, rule, old(tables), statements).Some?
      ensures tables == if ok then Run(schema, rule, old(tables), statements).value else old(tables)
      ensures Valid()
    {
      hide Relational.Run, Exec, TableValid, Integrity;
      var tx := tables;
      RunNothing(schema, rule, tables);
      for i := 0 to |statements|
        invariant tables == old(tables) && tx.Keys == tables.Keys
        invariant Run(schema, rule, tables, statements[..i]) == Some(tx)
      {
        assert statements == statements[..i + 1] + statements[i + 1..];
        assert statements[..i + 1] == statements[..i] + [statements[i]];
        RunSnoc(schema, rule, tables, statements[..i], statements[i]);
        match Exec(schema, rule, tx, statements[i]) {
          case None =>
            RunConcat(schema, rule, tables, statements[..i + 1], statements[i + 1..]);
            return false;
          case Some(next) => tx := next;
        }
      }
      assert statements[..|statements|] == statements;
      if !commits {
        return false;
      }
      RunKeepsValid(schema, rule, tables, statements, |statements|);
      tables := tx;
      return true;
    }
  }

  lemma {:induction false} InsertsOfSnoc(t: Text, columns: seq<Column>, rows: seq<Row>, row: Row)
    requires AllFit(columns, rows) && RowFits(columns, row)
    ensures InsertsOf(t, columns, rows + [row]) == InsertsOf(t, columns, rows) + [InsertText(t, columns, row)]
  {
    hide InsertText, RowFits;
    if rows == [] {
      assert rows + [row] == [row] && [row][1..] == [];
    } else {
      assert (rows + [row])[1..] == rows[1..] + [row];
      InsertsOfSnoc(t, columns, rows[1..], row);
    }
  }

  lemma {:induction false} InsertsSnoc(schema: Schema, order: seq<Text>, contents: Contents, t: Text, rows: seq<Row>)
    requires Dumpable(schema, order, contents) && t !in order && t in schema.defs
    requires AllFit(schema.defs[t].columns, rows)
    ensures Dumpable(schema, order + [t], contents[t := rows])
    ensures Inserts(schema, order + [t], contents[t := rows])
         == Inserts(schema, order, contents) + InsertsOf(t, schema.defs[t].columns, rows)
  {
    hide InsertsOf, AllFit;
    if order == [] {
      assert order + [t] == [t] && [t][1..] == [];
    } else {
      assert (order + [t])[1..] == order[1..] + [t];
      InsertsSnoc(schema, order[1..], contents, t, rows);
    }
  }

  lemma RowsFit(schema: Schema, tables: Tables, t: Text, rows: seq<Row>)
    requires WellFormed(schema) && Relational.Valid(schema, tables) && t in tables && multiset(rows) == tables[t]
    ensures AllFit(schema.defs[t].columns, rows)
  {
    assert TableValid(schema.defs[t], tables[t]);
    forall r | r in rows
      ensures RowFits(schema.defs[t].columns, r)
    {
      assert r in multiset(rows);
    }
  }

  lemma NothingRead(schema: Schema, views: seq<Tables>)
    ensures ReadFrom([], map[], views) && Dumpable(schema, [], map[]) && Inserts(schema, [], map[]) == []
  {
  }

  lemma ReadSnoc(order: seq<Text>, contents: Contents, views: seq<Tables>, t: Text, rows: seq<Row>)
    requires ReadFrom(order, contents, views) && t !in order && |order| < |views|
    requires t in views[|order|] && multiset(rows) == views[|order|][t]
    ensures ReadFrom(order + [t], contents[t := rows], views)
  {
    forall k | 0 <= k < |order|
      ensures order[k] != t
    {
      assert order[k] in order;
    }
  }

  /** Reads that all saw the same database are one atomic read of it. */
  lemma OneViewIsAtomic(order: seq<Text>, contents: Contents, views: seq<Tables>, source: Tables)
    requires ReadFrom(order, contents, views) && forall v | v in views :: v == source
    ensures ReadOf(order, contents, source)
  {
    forall t | t in order
      ensures t in contents && t in source && multiset(contents[t]) == source[t]
    {
      var k :| 0 <= k < |order| && order[k] == t;
      assert views[k] in views;
    }
  }

  class BackupService {
    const db: Database
    /** The backups bucket of the configured storage, by key. */
    var store: map<Text, Text>

    constructor (db: Database)
      ensures this.db == db && store == map[]
    {
      this.db, store := db, map[];
    }

    /**
     Resolves the storage, dumps, encodes and uploads under key; the parameters say whether the
     storage resolves, what each table read sees and whether the upload succeeds.
     */
    method Run(key: Text, resolved: bool, views: seq<Tables>, stored: bool) returns (ok: bool, contents: Contents)
      requires db.Valid() && AllValid(db.schema, views)
      modifies this
      ensures ok <==> resolved && |db.order| <= |views| && stored
      ensures ok ==> ReadFrom(db.order, contents, views) && Dumpable(db.schema, db.order, contents)
      ensures ok ==> store == old(store)[key := Archive.Encode(DumpText(db.schema, db.order, contents))]
      ensures !ok ==> store == old(store)
    {
      hide AllValid, ReadFrom, Dumpable, DumpText;
      contents := map[];
      if !resolved {
        return false, contents;
      }
      var dumped, statements;
      dumped, statements, contents := db.DumpStatements(views);
      if !dumped {
        return false, contents;
      }
      var archive := Archive.EncodeArchive(statements);
      if !stored {
        return false, contents;
      }
      store := store[key := archive];
      return true, contents;
    }

    /** Downloads, decodes and runs a stored backup in one transaction. */
    method Restore(path: Text, resolved: bool, commits: bool) returns (ok: bool)
      requires db.Valid()
      modifies db
      ensures db.Valid()
      ensures ok <==> path != [] && resolved && path in store && commits && Archive.Decode(store[path]).Some? &&
                      Relational.Run(db.schema, db.rule, old(db.tables), Archive.Decode(store[path]).value).Some?
      ensures !ok ==> db.tables == old(db.tables)
      ensures ok ==>
        Relational.Run(db.schema, db.rule, old(db.tables), Archive.Decode(store[path]).value) == Some(db.tables)
    {
      if path == [] || !resolved || path !in store {
        return false;
      }
      var statements := Archive.DecodeArchive(store[path]);
      if statements.None? {
        return false;
      }
      ok := db.RestoreStatements(statements.value, commits);
    }
  }

  /**
   Dump, encode, decode, restore: for every source and every target of one schema the
   decoded statements either all run, and then every backed-up table holds exactly the
   source's rows and every other table is untouched, or nothing is changed; they run exactly
   when no foreign key pins a backed-up table, and every intermediate state meets every
   constraint.
   */
  lemma BackupRestoreIdentity(schema: Schema, rule: TruncateRule, order: seq<Text>, contents: Contents,
                              source: Tables, target: Tables)
    requires WellFormed(schema) && Valid(schema, source) && Valid(schema, target)
    requires BackupOrder(schema, order) && ReadOf(order, contents, source)
    ensures Dumpable(schema, order, contents)
    ensures
      var statements := DumpText(schema, order, contents);
      var outcome := Relational.Run(schema, rule, target, statements);
      && (AllFramable(statements) ==> Archive.Decode(Archive.Encode(statements)) == Some(statements))
      && (outcome.Some? <==> Unpinned(schema, rule, order, order, target))
      && (outcome.Some? ==>
            && outcome.value.Keys == target.Keys
            && (forall t | t in target :: outcome.value[t] == if t in order then source[t] else target[t])
            && forall k | 0 <= k <= |statements| :: ValidAfter(schema, rule, target, statements[..k]))
  {
    RestoreOutcome(schema, rule, order, contents, source, target);
    var statements := DumpText(schema, order, contents);
    if AllFramable(statements) {
      Archive.DecodeOfEncode(statements);
    }
    if Relational.Run(schema, rule, target, statements).Some? {
      forall k | 0 <= k <= |statements|
        ensures ValidAfter(schema, rule, target, statements[..k])
      {
        RunKeepsValid(schema, rule, target, statements, k);
      }
    }
  }

  predicate AllFramable(statements: seq<Text>) {
    forall s | s in statements :: Archive.Framable(s)
  }

  ghost predicate ValidAfter(schema: Schema, rule: TruncateRule, target: Tables, statements: seq<Text>)
    requires WellFormed(schema) && target.Keys == schema.defs.Keys
  {
    var outcome := Relational.Run(schema, rule, target, statements);
    outcome.Some? && Valid(schema, outcome.value)
  }
}
