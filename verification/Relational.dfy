/**
 The part of PostgreSQL that a restore exercises: typed rows, unique keys, foreign keys, and
 the two statements of a dump. The schema, with its foreign keys, is a parameter.
 */
module Relational {
  import opened Prelude
  import opened GoText
  import opened SqlText

  datatype ColumnType = TBool | TInt | TText | TTextArray
  datatype Column = Column(name: Text, ctype: ColumnType, nullable: bool)

  /** A table's columns in declared order and its unique keys, each a set of columns. */
  datatype TableDef = TableDef(columns: seq<Column>, keys: set<set<Text>>)

  /** child.column REFERENCES parent(target) */
  datatype ForeignKey = ForeignKey(child: Text, column: Text, parent: Text, target: Text)

  datatype Schema = Schema(defs: map<Text, TableDef>, foreignKeys: set<ForeignKey>)

  /**
   What makes TRUNCATE fail: a row that refers into the table, which is what the comment on
   DumpStatements relies on, or, as the PostgreSQL manual has it, the mere declaration of a
   foreign key from another table.
   */
  datatype TruncateRule = ReferencingRows | ReferencingTables

  type Row = map<Text, Cell>
  type Tables = map<Text, multiset<Row>>

  function Names(columns: seq<Column>): (names: seq<Text>)
    ensures |names| == |columns|
    ensures forall i | 0 <= i < |columns| :: names[i] == columns[i].name
  {
    if columns == [] then [] else [columns[0].name] + Names(columns[1..])
  }

  predicate Distinct<T(==)>(s: seq<T>) {
    forall i, j | 0 <= i < j < |s| :: s[i] != s[j]
  }

  predicate DefWellFormed(def: TableDef) {
    && def.columns != []
    && Distinct(Names(def.columns))
    && forall n | n in Names(def.columns) :: IsName(n)
  }

  /** Both columns exist, and the one referred to is a unique key of its table. */
  predicate KeyWellFormed(defs: map<Text, TableDef>, fk: ForeignKey) {
    && fk.child in defs && fk.parent in defs
    && fk.column in Names(defs[fk.child].columns)
    && fk.target in Names(defs[fk.parent].columns) && {fk.target} in defs[fk.parent].keys
  }

  predicate WellFormed(schema: Schema) {
    && (forall t | t in schema.defs :: IsName(t) && DefWellFormed(schema.defs[t]))
    && (forall fk | fk in schema.foreignKeys :: KeyWellFormed(schema.defs, fk))
  }

  // ----- constraints -----

  predicate HasType(v: Cell, column: Column) {
    match v
    case Null => column.nullable
    case Bool(_) => column.ctype.TBool?
    case Int(_) => column.ctype.TInt?
    case Str(_) => column.ctype.TText?
    case List(_) => column.ctype.TTextArray?
  }

  predicate RowFits(columns: seq<Column>, row: Row) {
    && row.Keys == (set n | n in Names(columns))
    && forall i | 0 <= i < |columns| :: HasType(row[columns[i].name], columns[i])
  }

  predicate AllFit(columns: seq<Column>, rows: seq<Row>) {
    forall r | r in rows :: RowFits(columns, r)
  }

  predicate SameKey(key: set<Text>, r1: Row, r2: Row) {
    forall c | c in key :: c in r1 && c in r2 && r1[c] != Null && r1[c] == r2[c]
  }

  predicate Clash(def: TableDef, r1: Row, r2: Row) {
    exists key | key in def.keys :: SameKey(key, r1, r2)
  }

  predicate References(fk: ForeignKey, row: Row) {
    fk.column in row && row[fk.column] != Null
  }

  predicate NoReferences(fk: ForeignKey, rows: multiset<Row>) {
    forall row | row in rows :: !References(fk, row)
  }

  predicate Holds(fk: ForeignKey, row: Row, parents: multiset<Row>) {
    References(fk, row) ==> exists p | p in parents :: fk.target in p && p[fk.target] == row[fk.column]
  }

  ghost predicate Integrity(schema: Schema, tables: Tables)
    requires WellFormed(schema) && tables.Keys == schema.defs.Keys
  {
    forall fk, row | fk in schema.foreignKeys && row in tables[fk.child] :: Holds(fk, row, tables[fk.parent])
  }

  ghost predicate NoClash(def: TableDef, rows: multiset<Row>) {
    forall r1, r2 | r1 in rows && r2 in rows - multiset{r1} :: !Clash(def, r1, r2)
  }

  ghost predicate TableValid(def: TableDef, rows: multiset<Row>) {
    NoClash(def, rows) && forall row | row in rows :: RowFits(def.columns, row)
  }

  ghost predicate Valid(schema: Schema, tables: Tables)
    requires WellFormed(schema)
  {
    && tables.Keys == schema.defs.Keys
    && (forall t | t in tables :: TableValid(schema.defs[t], tables[t]))
    && Integrity(schema, tables)
  }

  // ----- statements -----

  /** The implicit cast of an untyped constant to the column's type. */
  function Coerce(c: Constant, column: Column): Option<Cell> {
    match c
    case CNull => if column.nullable then Some(Null) else None
    case CBool(b) => if column.ctype.TBool? then Some(Bool(b)) else None
    case CInt(n) => if column.ctype.TInt? then Some(Int(n)) else None
    case CStr(s) =>
      if column.ctype.TText? then Some(Str(s))
      else if column.ctype.TTextArray? then
        var items :- ParseArray(s);
        Some(List(items))
      else None
  }

  /** The constant an INSERT gives to a column; a column it does not name gets NULL. */
  function ValueFor(name: Text, columns: seq<Text>, values: seq<Constant>): Constant
    requires |columns| == |values|
  {
    if columns == [] then CNull
    else if columns[0] == name then values[0]
    else ValueFor(name, columns[1..], values[1..])
  }

  function BuildRow(declared: seq<Column>, columns: seq<Text>, values: seq<Constant>): Option<Row>
    requires |columns| == |values|
  {
    if declared == [] then Some(map[])
    else
      var cell :- Coerce(ValueFor(declared[0].name, columns, values), declared[0]);
      var row :- BuildRow(declared[1..], columns, values);
      Some(row[declared[0].name := cell])
  }

  predicate TruncateAllowed(schema: Schema, rule: TruncateRule, tables: Tables, t: Text)
    requires WellFormed(schema) && tables.Keys == schema.defs.Keys
  {
    forall fk | fk in schema.foreignKeys :: fk.parent == t && fk.child != t ==>
      rule.ReferencingRows? && NoReferences(fk, tables[fk.child])
  }

  predicate InsertAllowed(schema: Schema, tables: Tables, t: Text, row: Row)
    requires WellFormed(schema) && tables.Keys == schema.defs.Keys && t in schema.defs
  {
    && RowFits(schema.defs[t].columns, row)
    && (forall r | r in tables[t] :: !Clash(schema.defs[t], r, row) && !Clash(schema.defs[t], row, r))
    && (forall fk | fk in schema.foreignKeys :: fk.child == t ==>
          Holds(fk, row, if fk.parent == t then tables[t] + multiset{row} else tables[fk.parent]))
  }

  /** One statement; None is the error that aborts the transaction. */
  function ExecStatement(schema: Schema, rule: TruncateRule, tables: Tables, s: Statement): (r: Option<Tables>)
    requires WellFormed(schema) && tables.Keys == schema.defs.Keys
    ensures r.Some? ==> r.value.Keys == tables.Keys
  {
    match s
    case Truncate(t) =>
      if t in tables && TruncateAllowed(schema, rule, tables, t) then Some(tables[t := multiset{}]) else None
    case Insert(t, columns, values) =>
      if t !in tables || |columns| != |values| || !Distinct(columns) then None
      else if exists c | c in columns :: c !in Names(schema.defs[t].columns) then None
      else
        var row :- BuildRow(schema.defs[t].columns, columns, values);
        if InsertAllowed(schema, tables, t, row) then Some(tables[t := tables[t] + multiset{row}]) else None
  }

  function Exec(schema: Schema, rule: TruncateRule, tables: Tables, text: Text): (r: Option<Tables>)
    requires WellFormed(schema) && tables.Keys == schema.defs.Keys
    ensures r.Some? ==> r.value.Keys == tables.Keys
  {
    var s :- ParseStatement(text);
    ExecStatement(schema, rule, tables, s)
  }

  /** All statements of one transaction in order, or None at the first that fails. */
  function Run(schema: Schema, rule: TruncateRule, tables: Tables, texts: seq<Text>): (r: Option<Tables>)
    requires WellFormed(schema) && tables.Keys == schema.defs.Keys
    ensures r.Some? ==> r.value.Keys == tables.Keys
  {
    if texts == [] then Some(tables)
    else
      var next :- Exec(schema, rule, tables, texts[0]);
      Run(schema, rule, next, texts[1..])
  }

  lemma {:induction false} RunConcat(schema: Schema, rule: TruncateRule, tables: Tables, a: seq<Text>, b: seq<Text>)
    requires WellFormed(schema) && tables.Keys == schema.defs.Keys
    ensures Run(schema, rule, tables, a + b) ==
            match Run(schema, rule, tables, a)
            case None => None
            case Some(mid) => Run(schema, rule, mid, b)
  {
    if a == [] {
      assert a + b == b;
    } else {
      assert (a + b)[1..] == a[1..] + b;
      match Exec(schema, rule, tables, a[0]) {
        case None =>
        case Some(next) => RunConcat(schema, rule, next, a[1..], b);
      }
    }
  }

  // ----- every statement keeps every constraint -----

  lemma TruncateKeepsIntegrity(schema: Schema, rule: TruncateRule, tables: Tables, t: Text)
    requires WellFormed(schema) && tables.Keys == schema.defs.Keys && t in tables
    requires Integrity(schema, tables) && TruncateAllowed(schema, rule, tables, t)
    ensures Integrity(schema, tables[t := multiset{}])
  {
    hide RowFits, Clash;
    var after := tables[t := multiset{}];
    forall fk, row | fk in schema.foreignKeys && row in after[fk.child]
      ensures Holds(fk, row, after[fk.parent])
    {
      assert Holds(fk, row, tables[fk.parent]);
    }
  }

  lemma TableReplaced(schema: Schema, tables: Tables, t: Text, rows: multiset<Row>)
    requires WellFormed(schema) && Valid(schema, tables) && t in tables
    requires TableValid(schema.defs[t], rows) && Integrity(schema, tables[t := rows])
    ensures Valid(schema, tables[t := rows])
  {
    hide TableValid, Integrity, WellFormed;
  }

  lemma TruncateKeepsValid(schema: Schema, rule: TruncateRule, tables: Tables, t: Text)
    requires WellFormed(schema) && Valid(schema, tables) && t in tables
    requires TruncateAllowed(schema, rule, tables, t)
    ensures Valid(schema, tables[t := multiset{}])
  {
    hide Integrity, WellFormed, TruncateAllowed;
    TruncateKeepsIntegrity(schema, rule, tables, t);
    TableReplaced(schema, tables, t, multiset{});
  }

  lemma InsertKeepsHolds(schema: Schema, tables: Tables, t: Text, row: Row, fk: ForeignKey, r: Row)
    requires WellFormed(schema) && tables.Keys == schema.defs.Keys && t in tables
    requires Integrity(schema, tables) && InsertAllowed(schema, tables, t, row) && fk in schema.foreignKeys
    requires fk.child in tables && fk.parent in tables
    requires r in tables[fk.child] || (r == row && fk.child == t)
    ensures Holds(fk, r, tables[t := tables[t] + multiset{row}][fk.parent])
  {
    hide RowFits, Clash, Holds, WellFormed;
    var after := tables[t := tables[t] + multiset{row}];
    if r in tables[fk.child] {
      HoldsInMore(fk, r, tables[fk.parent], after[fk.parent]);
    } else {
      HoldsInMore(fk, r, if fk.parent == t then after[t] else tables[fk.parent], after[fk.parent]);
    }
  }

  lemma InsertKeepsIntegrity(schema: Schema, tables: Tables, t: Text, row: Row)
    requires WellFormed(schema) && tables.Keys == schema.defs.Keys && t in tables
    requires Integrity(schema, tables) && InsertAllowed(schema, tables, t, row)
    ensures Integrity(schema, tables[t := tables[t] + multiset{row}])
  {
    hide Holds, InsertAllowed;
    var after := tables[t := tables[t] + multiset{row}];
    forall fk, r | fk in schema.foreignKeys && r in after[fk.child]
      ensures Holds(fk, r, after[fk.parent])
    {
      assert KeyWellFormed(schema.defs, fk);
      InsertKeepsHolds(schema, tables, t, row, fk, r);
    }
  }

  lemma HoldsInMore(fk: ForeignKey, row: Row, some: multiset<Row>, more: multiset<Row>)
    requires Holds(fk, row, some) && some <= more
    ensures Holds(fk, row, more)
  {
    if References(fk, row) {
      var p :| p in some && fk.target in p && p[fk.target] == row[fk.column];
      assert p in more;
    }
  }

  lemma InsertKeepsKeys(def: TableDef, rows: multiset<Row>, row: Row)
    requires NoClash(def, rows)
    requires forall r | r in rows :: !Clash(def, r, row) && !Clash(def, row, r)
    ensures NoClash(def, rows + multiset{row})
  {
    forall r1, r2 | r1 in rows + multiset{row} && r2 in rows + multiset{row} - multiset{r1}
      ensures !Clash(def, r1, r2)
    {
      if r1 in rows && r2 in rows - multiset{r1} {
      } else if r1 in rows {
        assert r2 == row;
      } else {
        assert r1 == row && r2 in rows;
      }
    }
  }

  lemma InsertKeepsValid(schema: Schema, tables: Tables, t: Text, row: Row)
    requires WellFormed(schema) && Valid(schema, tables) && t in tables
    requires InsertAllowed(schema, tables, t, row)
    ensures Valid(schema, tables[t := tables[t] + multiset{row}])
  {
    hide Integrity, WellFormed, RowFits, Clash;
    InsertKeepsIntegrity(schema, tables, t, row);
    InsertKeepsKeys(schema.defs[t], tables[t], row);
    TableReplaced(schema, tables, t, tables[t] + multiset{row});
  }

  /** Types, unique keys and referential integrity hold after every statement that succeeds. */
  lemma ExecKeepsValid(schema: Schema, rule: TruncateRule, tables: Tables, text: Text)
    requires WellFormed(schema) && Valid(schema, tables)
    ensures Exec(schema, rule, tables, text).Some? ==> Valid(schema, Exec(schema, rule, tables, text).value)
  {
    match ParseStatement(text) {
      case Some(Truncate(t)) =>
        if t in tables && TruncateAllowed(schema, rule, tables, t) {
          TruncateKeepsValid(schema, rule, tables, t);
        }
      case Some(Insert(t, columns, values)) =>
        if Exec(schema, rule, tables, text).Some? {
          InsertKeepsValid(schema, tables, t, BuildRow(schema.defs[t].columns, columns, values).value);
        }
      case None =>
    }
  }

  // ----- when a statement fails -----

  /** The two rows have the same values, none of them NULL, in every column of the key. */
  predicate AgreeOn(key: set<Text>, r1: Row, r2: Row) {
    forall c | c in key :: c in r1 && c in r2 && r1[c] != Null && r1[c] == r2[c]
  }

  /** A row is refused exactly when it does not fit, repeats a unique key, or refers to nothing. */
  lemma InsertAllowedIff(schema: Schema, tables: Tables, t: Text, row: Row)
    requires WellFormed(schema) && tables.Keys == schema.defs.Keys && t in tables
    ensures InsertAllowed(schema, tables, t, row) <==>
      && RowFits(schema.defs[t].columns, row)
      && (forall key, r | key in schema.defs[t].keys && r in tables[t] :: !AgreeOn(key, r, row))
      && (forall fk | fk in schema.foreignKeys && fk.child == t && fk.column in row && row[fk.column] != Null ::
            HasTarget(fk, row, tables[fk.parent]) || (fk.parent == t && IsTarget(fk, row, row)))
  {
    hide RowFits, Clash, AgreeOn, HasTarget, IsTarget, Holds;
    var def := schema.defs[t];
    assert (forall r | r in tables[t] :: !Clash(def, r, row) && !Clash(def, row, r)) <==>
           (forall key, r | key in def.keys && r in tables[t] :: !AgreeOn(key, r, row)) by {
      ClashIff(def, tables[t], row);
    }
    KeysAreOnTables(schema, tables);
    forall fk | fk in schema.foreignKeys && fk.child == t
      ensures Holds(fk, row, if fk.parent == t then tables[t] + multiset{row} else tables[fk.parent]) <==>
              (fk.column in row && row[fk.column] != Null ==>
                 HasTarget(fk, row, tables[fk.parent]) || (fk.parent == t && IsTarget(fk, row, row)))
    {
      HoldsIff(fk, row, tables[fk.parent], fk.parent == t);
    }
  }

  lemma KeysAreOnTables(schema: Schema, tables: Tables)
    requires WellFormed(schema) && tables.Keys == schema.defs.Keys
    ensures forall fk | fk in schema.foreignKeys :: fk.child in tables && fk.parent in tables
  {
    forall fk | fk in schema.foreignKeys
      ensures fk.child in tables && fk.parent in tables
    {
      assert KeyWellFormed(schema.defs, fk);
    }
  }

  predicate IsTarget(fk: ForeignKey, row: Row, p: Row)
    requires fk.column in row
  {
    fk.target in p && p[fk.target] == row[fk.column]
  }

  predicate HasTarget(fk: ForeignKey, row: Row, parents: multiset<Row>)
    requires fk.column in row
  {
    exists p | p in parents :: IsTarget(fk, row, p)
  }

  lemma ClashIff(def: TableDef, rows: multiset<Row>, row: Row)
    ensures (forall r | r in rows :: !Clash(def, r, row) && !Clash(def, row, r)) <==>
            (forall key, r | key in def.keys && r in rows :: !AgreeOn(key, r, row))
  {
    forall key, r | key in def.keys && r in rows
      ensures AgreeOn(key, r, row) <==> SameKey(key, r, row)
      ensures SameKey(key, r, row) <==> SameKey(key, row, r)
    {
    }
  }

  lemma HoldsIff(fk: ForeignKey, row: Row, parents: multiset<Row>, itself: bool)
    ensures Holds(fk, row, if itself then parents + multiset{row} else parents) <==>
            (fk.column in row && row[fk.column] != Null ==>
               HasTarget(fk, row, parents) || (itself && IsTarget(fk, row, row)))
  {
    var all := if itself then parents + multiset{row} else parents;
    if References(fk, row) && Holds(fk, row, all) {
      var p :| p in all && fk.target in p && p[fk.target] == row[fk.column];
      assert IsTarget(fk, row, p);
    }
    if References(fk, row) && HasTarget(fk, row, parents) {
      var p :| p in parents && IsTarget(fk, row, p);
      assert p in all;
    }
    if References(fk, row) && itself && IsTarget(fk, row, row) {
      assert row in all;
    }
  }

  /** A TRUNCATE is refused exactly when another table refers in, by a row or by its mere declaration. */
  lemma TruncateAllowedMeans(schema: Schema, tables: Tables, t: Text)
    requires WellFormed(schema) && tables.Keys == schema.defs.Keys && t in tables
    ensures TruncateAllowed(schema, ReferencingRows, tables, t) <==>
      forall fk, row | fk in schema.foreignKeys && fk.parent == t && fk.child != t && row in tables[fk.child] ::
        fk.column in row ==> row[fk.column] == Null
    ensures TruncateAllowed(schema, ReferencingTables, tables, t) <==>
      forall fk | fk in schema.foreignKeys && fk.parent == t :: fk.child == t
  {
    KeysAreOnTables(schema, tables);
    hide WellFormed;
    if forall fk, row | fk in schema.foreignKeys && fk.parent == t && fk.child != t && row in tables[fk.child] ::
         fk.column in row ==> row[fk.column] == Null {
      forall fk | fk in schema.foreignKeys && fk.parent == t && fk.child != t
        ensures NoReferences(fk, tables[fk.child])
      {
      }
    }
  }

  // ----- an INSERT printed from a row builds that row -----

  /** A row's values in the order of the declared columns, as SELECT * returns them. */
  function Values(columns: seq<Column>, row: Row): (values: seq<Cell>)
    requires forall i | 0 <= i < |columns| :: columns[i].name in row
    ensures |values| == |columns|
  {
    if columns == [] then [] else [row[columns[0].name]] + Values(columns[1..], row)
  }

  lemma CoerceOfPrinted(v: Cell, column: Column)
    requires HasType(v, column)
    ensures Coerce(ConstantOf(v), column) == Some(v)
  {
    if v.List? {
      ArrayRoundTrip(v.items);
    }
  }

  /** The values a column takes are exactly those that survive being printed and cast to its type. */
  lemma TypedIffSurvives(v: Cell, column: Column)
    ensures HasType(v, column) <==> Coerce(ConstantOf(v), column) == Some(v)
    ensures HasType(v, column) <==>
      if v == Null then column.nullable
      else column.ctype == (if v.Bool? then TBool else if v.Int? then TInt else if v.Str? then TText else TTextArray)
  {
    if HasType(v, column) {
      CoerceOfPrinted(v, column);
    }
  }

  lemma {:induction false} ValueForOfPrinted(columns: seq<Column>, row: Row, k: nat)
    requires k < |columns| && Distinct(Names(columns))
    requires forall i | 0 <= i < |columns| :: columns[i].name in row
    ensures ValueFor(columns[k].name, Names(columns), ConstantsOf(Values(columns, row)))
         == ConstantOf(row[columns[k].name])
  {
    var names := Names(columns);
    if k > 0 {
      assert names[0] != names[k];
      assert Names(columns[1..]) == names[1..];
      assert Distinct(Names(columns[1..]));
      ValueForOfPrinted(columns[1..], row, k - 1);
    }
  }

  function Pick(columns: seq<Column>, row: Row): (r: Row)
    requires forall i | 0 <= i < |columns| :: columns[i].name in row
    ensures r.Keys == set n | n in Names(columns)
    ensures forall n | n in r :: n in row && r[n] == row[n]
  {
    if columns == [] then map[] else Pick(columns[1..], row)[columns[0].name := row[columns[0].name]]
  }

  lemma FitsHasColumns(columns: seq<Column>, row: Row)
    requires RowFits(columns, row)
    ensures forall i | 0 <= i < |columns| :: columns[i].name in row
  {
    assert forall i | 0 <= i < |columns| :: Names(columns)[i] in row;
  }

  lemma {:induction false} BuildRowFrom(columns: seq<Column>, row: Row, k: nat)
    requires k <= |columns| && Distinct(Names(columns))
    requires forall i | 0 <= i < |columns| :: columns[i].name in row
    requires forall i | 0 <= i < |columns| :: HasType(row[columns[i].name], columns[i])
    ensures BuildRow(columns[k..], Names(columns), ConstantsOf(Values(columns, row))) == Some(Pick(columns[k..], row))
    decreases |columns| - k
  {
    var rest := columns[k..];
    if k < |columns| {
      assert rest[0] == columns[k] && rest[1..] == columns[k + 1..];
      ValueForOfPrinted(columns, row, k);
      CoerceOfPrinted(row[columns[k].name], columns[k]);
      BuildRowFrom(columns, row, k + 1);
    } else {
      assert rest == [];
    }
  }

  lemma PickAll(columns: seq<Column>, row: Row)
    requires (forall i | 0 <= i < |columns| :: columns[i].name in row) && row.Keys == set n | n in Names(columns)
    ensures Pick(columns, row) == row
  {
  }

  lemma BuildRowOfPrinted(columns: seq<Column>, row: Row)
    requires Distinct(Names(columns)) && RowFits(columns, row)
    ensures forall i | 0 <= i < |columns| :: columns[i].name in row
    ensures BuildRow(columns, Names(columns), ConstantsOf(Values(columns, row))) == Some(row)
  {
    hide BuildRow, Values, Pick, ConstantsOf, Distinct, HasType;
    FitsHasColumns(columns, row);
    assert columns[0..] == columns;
    BuildRowFrom(columns, row, 0);
    PickAll(columns, row);
  }
}
