/**
 The statement printer of DumpStatements and a lexer for the SQL it prints: string literals
 as in ISO/IEC 9075-2 section 5.3, array literals as in section 8.15 of the PostgreSQL
 manual. The lexer knows only the forms the printer emits and refuses every other text.
 */
module SqlText {
  import opened Prelude
  import opened GoText

  /** A column value as the driver decodes it. */
  datatype Cell = Null | Bool(b: bool) | Int(n: int) | Str(s: Text) | List(items: seq<Text>)

  /** A constant as the SQL lexer reads it: an array arrives as an untyped string. */
  datatype Constant = CNull | CBool(b: bool) | CInt(n: int) | CStr(s: Text)

  datatype Statement =
    | Truncate(table: Text)
    | Insert(table: Text, columns: seq<Text>, values: seq<Constant>)

  // ----- printing -----

  const TRUNCATE_TABLE: Text := "TRUNCATE TABLE "
  const INSERT_INTO: Text := "INSERT INTO "
  const COLUMNS_OPEN: Text := " ("
  const VALUES_OPEN: Text := " VALUES ("
  const COMMA: Text := ", "
  const CLOSE: Text := ")"
  const NULL_WORD: Text := "NULL"
  const TRUE_WORD: Text := "TRUE"
  const FALSE_WORD: Text := "FALSE"
  const QUOTE: Text := "'"
  const TWO_QUOTES: Text := "''"
  const TWO_BACKSLASHES: Text := "\\\\"
  const BACKSLASH_QUOTE: Text := "\\\""
  const DOUBLE_QUOTE: Text := "\""
  const ARRAY_OPEN: Text := "{"
  const ARRAY_CLOSE: Text := "}"
  const ITEM_COMMA: Text := ","

  function QuoteSqlString(s: Text): Text {
    QUOTE + ReplaceAll(s, '\'', TWO_QUOTES) + QUOTE
  }

  function ArrayItem(item: Text): Text {
    var esc := ReplaceAll(item, '\\', TWO_BACKSLASHES);
    var esc := ReplaceAll(esc, '"', BACKSLASH_QUOTE);
    DOUBLE_QUOTE + esc + DOUBLE_QUOTE
  }

  function ArrayItems(items: seq<Text>): (parts: seq<Text>)
    ensures |parts| == |items|
  {
    if items == [] then [] else [ArrayItem(items[0])] + ArrayItems(items[1..])
  }

  lemma {:induction false} ArrayItemsSnoc(items: seq<Text>, item: Text)
    ensures ArrayItems(items + [item]) == ArrayItems(items) + [ArrayItem(item)]
  {
    if items == [] {
      assert items + [item] == [item];
      assert ArrayItems([item][1..]) == [];
    } else {
      assert (items + [item])[1..] == items[1..] + [item];
      ArrayItemsSnoc(items[1..], item);
    }
  }

  function ArrayLiteral(items: seq<Text>): Text {
    ARRAY_OPEN + Join(ArrayItems(items), ITEM_COMMA) + ARRAY_CLOSE
  }

  /** pgTextArrayLiteral: fills one part per item, then joins them. */
  method PgTextArrayLiteral(items: seq<Text>) returns (text: Text)
    ensures text == ArrayLiteral(items)
    ensures ParseArray(text) == Some(items)
  {
    var parts := [];
    for i := 0 to |items|
      invariant parts == ArrayItems(items[..i])
    {
      var esc := ReplaceAll(items[i], '\\', TWO_BACKSLASHES);
      esc := ReplaceAll(esc, '"', BACKSLASH_QUOTE);
      ArrayItemsSnoc(items[..i], items[i]);
      assert items[..i + 1] == items[..i] + [items[i]];
      parts := parts + [DOUBLE_QUOTE + esc + DOUBLE_QUOTE];
    }
    assert items[..|items|] == items;
    text := ARRAY_OPEN + Join(parts, ITEM_COMMA) + ARRAY_CLOSE;
    ArrayRoundTrip(items);
  }

  function SqlLiteral(v: Cell): Text {
    match v
    case Null => NULL_WORD
    case Bool(b) => if b then TRUE_WORD else FALSE_WORD
    case Int(n) => FormatInt(n)
    case Str(s) => QuoteSqlString(s)
    case List(items) => QuoteSqlString(ArrayLiteral(items))
  }

  function SqlLiterals(row: seq<Cell>): (r: seq<Text>)
    ensures |r| == |row|
  {
    if row == [] then [] else [SqlLiteral(row[0])] + SqlLiterals(row[1..])
  }

  function PrintTruncate(table: Text): Text {
    TRUNCATE_TABLE + table
  }

  function PrintInsert(table: Text, columns: seq<Text>, row: seq<Cell>): Text {
    INSERT_INTO + (table + (COLUMNS_OPEN + PrintColumnsAndValues(columns, row)))
  }

  function PrintColumnsAndValues(columns: seq<Text>, row: seq<Cell>): Text {
    Join(columns, COMMA) + CLOSE + (VALUES_OPEN + PrintValues(row))
  }

  function PrintValues(row: seq<Cell>): Text {
    Join(SqlLiterals(row), COMMA) + CLOSE
  }

  /** What the lexer must read for a printed value. */
  function ConstantOf(v: Cell): Constant {
    match v
    case Null => CNull
    case Bool(b) => CBool(b)
    case Int(n) => CInt(n)
    case Str(s) => CStr(s)
    case List(items) => CStr(ArrayLiteral(items))
  }

  function ConstantsOf(row: seq<Cell>): (r: seq<Constant>)
    ensures |r| == |row|
  {
    if row == [] then [] else [ConstantOf(row[0])] + ConstantsOf(row[1..])
  }

  // ----- lexing -----

  predicate IsWordByte(c: byte) {
    'a' <= c <= 'z' || 'A' <= c <= 'Z' || '0' <= c <= '9' || c == '_' || c == '-'
  }

  /** An identifier that needs no quotes and no case folding. */
  predicate IsName(s: Text) {
    s != [] && forall c | c in s :: 'a' <= c <= 'z' || '0' <= c <= '9' || c == '_'
  }

  function Strip(prefix: Text, s: Text): Option<Text> {
    if |prefix| <= |s| && s[..|prefix|] == prefix then Some(s[|prefix|..]) else None
  }

  /** The longest prefix of word bytes and what follows it. */
  function TakeWord(s: Text): (r: (Text, Text))
    ensures r.0 + r.1 == s
  {
    if s == [] || !IsWordByte(s[0]) then ([], s)
    else
      var (word, rest) := TakeWord(s[1..]);
      ([s[0]] + word, rest)
  }

  /** The body of a string literal, after its opening quote. */
  function LexString(s: Text): (r: Option<(Text, Text)>)
    ensures r.Some? ==> |r.value.1| < |s|
  {
    if s == [] then None
    else if s[0] != '\'' then
      var (body, rest) :- LexString(s[1..]);
      Some(([s[0]] + body, rest))
    else if |s| > 1 && s[1] == '\'' then
      var (body, rest) :- LexString(s[2..]);
      Some(([s[0]] + body, rest))
    else Some(([], s[1..]))
  }

  function LexConstant(s: Text): (r: Option<(Constant, Text)>)
    ensures r.Some? ==> |r.value.1| <= |s|
  {
    if s != [] && s[0] == '\'' then
      var (body, rest) :- LexString(s[1..]);
      Some((CStr(body), rest))
    else
      var (word, rest) := TakeWord(s);
      if word == NULL_WORD then Some((CNull, rest))
      else if word == TRUE_WORD then Some((CBool(true), rest))
      else if word == FALSE_WORD then Some((CBool(false), rest))
      else
        var n :- ParseInt(word);
        Some((CInt(n), rest))
  }

  /** One or more names separated by ", " and closed by ")". */
  function LexNames(s: Text): Option<(seq<Text>, Text)>
    decreases |s|
  {
    var (name, rest) := TakeWord(s);
    if !IsName(name) then None
    else
      match Strip(CLOSE, rest)
      case Some(after) => Some(([name], after))
      case None =>
        var more :- Strip(COMMA, rest);
        var (names, after) :- LexNames(more);
        Some(([name] + names, after))
  }

  /** One or more constants separated by ", " and closed by ")". */
  function LexConstants(s: Text): Option<(seq<Constant>, Text)>
    decreases |s|
  {
    var (c, rest) :- LexConstant(s);
    match Strip(CLOSE, rest)
    case Some(after) => Some(([c], after))
    case None =>
      var more :- Strip(COMMA, rest);
      var (cs, after) :- LexConstants(more);
      Some(([c] + cs, after))
  }

  function ParseStatement(s: Text): Option<Statement> {
    match Strip(TRUNCATE_TABLE, s)
    case Some(name) => if IsName(name) then Some(Truncate(name)) else None
    case None =>
      var s :- Strip(INSERT_INTO, s);
      ParseInsert(s)
  }

  function ParseInsert(s: Text): Option<Statement> {
    var (table, rest) := TakeWord(s);
    if !IsName(table) then None
    else
      var list :- Strip(COLUMNS_OPEN, rest);
      ParseColumnsAndValues(table, list)
  }

  function ParseColumnsAndValues(table: Text, s: Text): Option<Statement> {
    var (columns, rest) :- LexNames(s);
    var list :- Strip(VALUES_OPEN, rest);
    var (values, end) :- LexConstants(list);
    if end == [] then Some(Insert(table, columns, values)) else None
  }

  /** A quoted array element, after its opening double quote. */
  function LexItem(s: Text): (r: Option<(Text, Text)>)
    ensures r.Some? ==> |r.value.1| < |s|
  {
    if s == [] then None
    else if s[0] == '"' then Some(([], s[1..]))
    else if s[0] == '\\' then
      if |s| == 1 then None
      else
        var (body, rest) :- LexItem(s[2..]);
        Some(([s[1]] + body, rest))
    else
      var (body, rest) :- LexItem(s[1..]);
      Some(([s[0]] + body, rest))
  }

  /** One or more quoted elements separated by "," and closed by a final "}". */
  function LexItems(s: Text): Option<seq<Text>>
    decreases |s|
  {
    var s' :- Strip(DOUBLE_QUOTE, s);
    var (item, rest) :- LexItem(s');
    if rest == ARRAY_CLOSE then Some([item])
    else
      var more :- Strip(ITEM_COMMA, rest);
      var items :- LexItems(more);
      Some([item] + items)
  }

  function ParseArray(s: Text): Option<seq<Text>> {
    var s :- Strip(ARRAY_OPEN, s);
    if s == ARRAY_CLOSE then Some([]) else LexItems(s)
  }

  // ----- the lexer inverts the printer -----

  lemma StripPrefix(prefix: Text, s: Text)
    ensures Strip(prefix, prefix + s) == Some(s)
  {
    assert (prefix + s)[..|prefix|] == prefix;
    assert (prefix + s)[|prefix|..] == s;
  }

  lemma {:induction false} TakeWordOfWord(word: Text, rest: Text)
    requires forall c | c in word :: IsWordByte(c)
    requires rest == [] || !IsWordByte(rest[0])
    ensures TakeWord(word + rest) == (word, rest)
  {
    if word == [] {
      assert word + rest == rest;
    } else {
      assert (word + rest)[1..] == word[1..] + rest;
      assert word == [word[0]] + word[1..];
      TakeWordOfWord(word[1..], rest);
    }
  }

  lemma ReplaceAllCons(s: Text, target: byte, fill: Text)
    requires s != []
    ensures ReplaceAll(s, target, fill) == (if s[0] == target then fill else [s[0]]) + ReplaceAll(s[1..], target, fill)
  {
  }

  lemma LexStringEnd(rest: Text)
    requires rest == [] || rest[0] != '\''
    ensures LexString(QUOTE + rest) == Some(([], rest))
  {
    assert (QUOTE + rest)[1..] == rest;
  }

  lemma LexStringStep(c: byte, tail: Text)
    requires LexString(tail).Some?
    ensures LexString((if c == '\'' then TWO_QUOTES else [c]) + tail)
         == Some(([c] + LexString(tail).value.0, LexString(tail).value.1))
  {
    var s: Text := (if c == '\'' then TWO_QUOTES else [c]) + tail;
    if c == '\'' {
      assert s[0] == '\'' && s[1] == '\'' && s[2..] == tail;
    } else {
      assert s[0] == c && s[1..] == tail;
    }
  }

  /** Doubling every quote is undone by the string lexer, whatever follows the literal. */
  lemma {:induction false} LexStringOfQuoted(s: Text, rest: Text)
    requires rest == [] || rest[0] != '\''
    ensures LexString(ReplaceAll(s, '\'', TWO_QUOTES) + QUOTE + rest) == Some((s, rest))
  {
    hide LexString;
    if s == [] {
      assert ReplaceAll(s, '\'', TWO_QUOTES) + QUOTE + rest == QUOTE + rest;
      LexStringEnd(rest);
    } else {
      hide ReplaceAll;
      var head: Text := if s[0] == '\'' then TWO_QUOTES else [s[0]];
      var tail := ReplaceAll(s[1..], '\'', TWO_QUOTES);
      ReplaceAllCons(s, '\'', TWO_QUOTES);
      LexStringOfQuoted(s[1..], rest);
      LexStringStep(s[0], tail + QUOTE + rest);
      assert head + tail + QUOTE + rest == head + (tail + QUOTE + rest);
      assert s == [s[0]] + s[1..];
    }
  }

  lemma WordBytesOfInt(n: int)
    ensures forall c | c in FormatInt(n) :: IsWordByte(c)
    ensures FormatInt(n) != [] && FormatInt(n)[0] != '\''
    ensures FormatInt(n) != NULL_WORD && FormatInt(n) != TRUE_WORD && FormatInt(n) != FALSE_WORD
  {
    if n < 0 {
    } else {
      assert FormatInt(n)[0] in Digits(n);
    }
  }

  /** Every printed value lexes back to its constant, whatever closing text follows. */
  lemma LexConstantOfLiteral(v: Cell, rest: Text)
    requires rest != [] && (rest[0] == ',' || rest[0] == ')')
    ensures LexConstant(SqlLiteral(v) + rest) == Some((ConstantOf(v), rest))
  {
    match v {
      case Null => TakeWordOfWord(NULL_WORD, rest);
      case Bool(b) => TakeWordOfWord(if b then TRUE_WORD else FALSE_WORD, rest);
      case Int(n) =>
        WordBytesOfInt(n);
        TakeWordOfWord(FormatInt(n), rest);
        ParseIntOfFormatInt(n);
      case Str(s) => LexConstantOfString(s, rest);
      case List(items) => LexConstantOfString(ArrayLiteral(items), rest);
    }
  }

  lemma LexConstantOfString(s: Text, rest: Text)
    requires rest != [] && rest[0] != '\''
    ensures LexConstant(QuoteSqlString(s) + rest) == Some((CStr(s), rest))
  {
    LexStringOfQuoted(s, rest);
    assert (QuoteSqlString(s) + rest)[1..] == ReplaceAll(s, '\'', TWO_QUOTES) + QUOTE + rest;
  }

  lemma LexNamesLast(name: Text, rest: Text)
    requires IsName(name)
    ensures LexNames(name + (CLOSE + rest)) == Some(([name], rest))
  {
    hide TakeWord, Strip;
    assert forall c | c in name :: IsWordByte(c);
    TakeWordOfWord(name, CLOSE + rest);
    StripPrefix(CLOSE, rest);
  }

  lemma LexNamesMore(name: Text, tail: Text)
    requires IsName(name) && LexNames(tail).Some?
    ensures LexNames(name + (COMMA + tail)) == Some(([name] + LexNames(tail).value.0, LexNames(tail).value.1))
  {
    hide TakeWord;
    assert forall c | c in name :: IsWordByte(c);
    TakeWordOfWord(name, COMMA + tail);
    StripPrefix(COMMA, tail);
    assert (COMMA + tail)[0] != CLOSE[0];
  }

  lemma {:induction false} LexNamesOfJoin(names: seq<Text>, rest: Text)
    requires names != [] && forall n | n in names :: IsName(n)
    ensures LexNames(Join(names, COMMA) + CLOSE + rest) == Some((names, rest))
  {
    hide LexNames, Join, IsName;
    var first, parts := names[0], names[1..];
    assert IsName(first) && names == [first] + parts;
    if |names| == 1 {
      assert names == [first];
      JoinOne(first, COMMA);
      assert first + CLOSE + rest == first + (CLOSE + rest);
      LexNamesLast(first, rest);
    } else {
      var tail := Join(parts, COMMA) + CLOSE + rest;
      JoinMore(first, parts, COMMA);
      assert first + COMMA + Join(parts, COMMA) + CLOSE + rest == first + (COMMA + tail);
      LexNamesOfJoin(parts, rest);
      LexNamesMore(first, tail);
    }
  }

  lemma JoinOne(part: Text, sep: Text)
    ensures Join([part], sep) == part
  {
  }

  lemma JoinMore(part: Text, parts: seq<Text>, sep: Text)
    requires parts != []
    ensures Join([part] + parts, sep) == part + sep + Join(parts, sep)
  {
    assert ([part] + parts)[1..] == parts;
  }

  lemma LexConstantsLast(v: Cell, rest: Text)
    ensures LexConstants(SqlLiteral(v) + (CLOSE + rest)) == Some(([ConstantOf(v)], rest))
  {
    hide LexConstant, SqlLiteral, ConstantOf, Strip;
    LexConstantOfLiteral(v, CLOSE + rest);
    StripPrefix(CLOSE, rest);
  }

  lemma LexConstantsMore(v: Cell, tail: Text)
    requires LexConstants(tail).Some?
    ensures LexConstants(SqlLiteral(v) + (COMMA + tail))
         == Some(([ConstantOf(v)] + LexConstants(tail).value.0, LexConstants(tail).value.1))
  {
    hide LexConstant, SqlLiteral, ConstantOf;
    LexConstantOfLiteral(v, COMMA + tail);
    StripPrefix(COMMA, tail);
    assert (COMMA + tail)[0] != CLOSE[0];
  }

  lemma RowCons(row: seq<Cell>)
    requires row != []
    ensures SqlLiterals(row) == [SqlLiteral(row[0])] + SqlLiterals(row[1..])
    ensures ConstantsOf(row) == [ConstantOf(row[0])] + ConstantsOf(row[1..])
  {
    hide SqlLiteral, ConstantOf;
  }

  lemma {:induction false} LexConstantsOfJoin(row: seq<Cell>, rest: Text)
    requires row != []
    ensures LexConstants(Join(SqlLiterals(row), COMMA) + CLOSE + rest) == Some((ConstantsOf(row), rest))
  {
    hide LexConstants, Join, SqlLiteral, ConstantOf;
    var first, parts := SqlLiteral(row[0]), SqlLiterals(row[1..]);
    RowCons(row);
    if |row| == 1 {
      assert row[1..] == [];
      assert SqlLiterals(row) == [first] && ConstantsOf(row) == [ConstantOf(row[0])];
      JoinOne(first, COMMA);
      assert first + CLOSE + rest == first + (CLOSE + rest);
      LexConstantsLast(row[0], rest);
    } else {
      var tail := Join(parts, COMMA) + CLOSE + rest;
      JoinMore(first, parts, COMMA);
      assert first + COMMA + Join(parts, COMMA) + CLOSE + rest == first + (COMMA + tail);
      LexConstantsOfJoin(row[1..], rest);
      LexConstantsMore(row[0], tail);
    }
  }

  lemma TruncateRoundTrip(table: Text)
    requires IsName(table)
    ensures ParseStatement(PrintTruncate(table)) == Some(Truncate(table))
  {
    StripPrefix(TRUNCATE_TABLE, table);
  }

  lemma ColumnsRoundTrip(columns: seq<Text>, rest: Text)
    requires columns != [] && forall c | c in columns :: IsName(c)
    ensures LexNames(Join(columns, COMMA) + CLOSE + rest) == Some((columns, rest))
  {
    LexNamesOfJoin(columns, rest);
  }

  lemma ValuesRoundTrip(row: seq<Cell>)
    requires row != []
    ensures LexConstants(PrintValues(row)) == Some((ConstantsOf(row), []))
  {
    LexConstantsOfJoin(row, []);
    assert PrintValues(row) + [] == PrintValues(row);
  }

  /** The parse of a statement, put together from the parses of its parts. */
  lemma ParseInsertFromParts(s: Text, table: Text, rest: Text, list: Text, columns: seq<Text>,
                             rest': Text, list': Text, values: seq<Constant>)
    requires TakeWord(s) == (table, rest) && IsName(table)
    requires Strip(COLUMNS_OPEN, rest) == Some(list)
    requires LexNames(list) == Some((columns, rest'))
    requires Strip(VALUES_OPEN, rest') == Some(list')
    requires LexConstants(list') == Some((values, []))
    ensures ParseInsert(s) == Some(Insert(table, columns, values))
  {
  }

  lemma InsertBodyRoundTrip(table: Text, columns: seq<Text>, row: seq<Cell>, list: Text, rest: Text)
    requires IsName(table) && columns != [] && |columns| == |row|
    requires forall c | c in columns :: IsName(c)
    requires list == PrintColumnsAndValues(columns, row) && rest == VALUES_OPEN + PrintValues(row)
    ensures ParseInsert(table + (COLUMNS_OPEN + list)) == Some(Insert(table, columns, ConstantsOf(row)))
  {
    TakeWordOfWord(table, COLUMNS_OPEN + list);
    StripPrefix(COLUMNS_OPEN, list);
    ColumnsRoundTrip(columns, rest);
    StripPrefix(VALUES_OPEN, PrintValues(row));
    ValuesRoundTrip(row);
    ParseInsertFromParts(table + (COLUMNS_OPEN + list), table, COLUMNS_OPEN + list, list, columns, rest,
                         PrintValues(row), ConstantsOf(row));
  }

  lemma ParseStatementOfInsert(s: Text, body: Text)
    requires s != [] && s[0] == 'I' && Strip(INSERT_INTO, s) == Some(body)
    ensures ParseStatement(s) == ParseInsert(body)
  {
    if |s| >= 15 {
      assert s[..15][0] == 'I';
    }
  }

  /** A printed row parses back to the same table, columns and values. */
  lemma InsertRoundTrip(table: Text, columns: seq<Text>, row: seq<Cell>)
    requires IsName(table) && columns != [] && |columns| == |row|
    requires forall c | c in columns :: IsName(c)
    ensures ParseStatement(PrintInsert(table, columns, row)) == Some(Insert(table, columns, ConstantsOf(row)))
  {
    var list := PrintColumnsAndValues(columns, row);
    var body := table + (COLUMNS_OPEN + list);
    StripPrefix(INSERT_INTO, body);
    ParseStatementOfInsert(PrintInsert(table, columns, row), body);
    InsertBodyRoundTrip(table, columns, row, list, VALUES_OPEN + PrintValues(row));
  }

  // ----- array literals -----

  /** Both escapes at once: a backslash before every backslash and every double quote. */
  function Escape(s: Text): Text {
    if s == [] then [] else EscapeByte(s[0]) + Escape(s[1..])
  }

  function EscapeByte(c: byte): Text {
    if c == '\\' || c == '"' then ['\\', c] else [c]
  }

  lemma {:induction false} ReplaceAllConcat(a: Text, b: Text, target: byte, fill: Text)
    ensures ReplaceAll(a + b, target, fill) == ReplaceAll(a, target, fill) + ReplaceAll(b, target, fill)
  {
    if a == [] {
      assert a + b == b;
    } else {
      assert (a + b)[1..] == a[1..] + b;
      ReplaceAllConcat(a[1..], b, target, fill);
    }
  }

  /** The two replacements in sequence are one simultaneous escape. */
  lemma {:induction false} SequentialEscapes(s: Text)
    ensures ReplaceAll(ReplaceAll(s, '\\', TWO_BACKSLASHES), '"', BACKSLASH_QUOTE) == Escape(s)
  {
    if s != [] {
      var head: Text := if s[0] == '\\' then TWO_BACKSLASHES else [s[0]];
      var tail := ReplaceAll(s[1..], '\\', TWO_BACKSLASHES);
      ReplaceAllConcat(head, tail, '"', BACKSLASH_QUOTE);
      SequentialEscapes(s[1..]);
      if s[0] == '\\' {
        assert ReplaceAll(head, '"', BACKSLASH_QUOTE) == head by {
          assert head[1..] == "\\";
          assert head[1..][1..] == [];
        }
      } else {
        assert head[1..] == [];
      }
    }
  }

  lemma LexItemStep(c: byte, tail: Text)
    requires LexItem(tail).Some?
    ensures LexItem(EscapeByte(c) + tail)
         == Some(([c] + LexItem(tail).value.0, LexItem(tail).value.1))
  {
    var s := EscapeByte(c) + tail;
    if c == '\\' || c == '"' {
      assert s[0] == '\\' && s[1] == c && s[2..] == tail;
    } else {
      assert s[0] == c && s[1..] == tail;
    }
  }

  lemma EscapeCons(s: Text)
    requires s != []
    ensures Escape(s) == EscapeByte(s[0]) + Escape(s[1..])
  {
  }

  lemma LexItemEnd(rest: Text)
    ensures LexItem(DOUBLE_QUOTE + rest) == Some(([], rest))
  {
    assert (DOUBLE_QUOTE + rest)[1..] == rest;
  }

  lemma {:induction false} LexItemOfEscaped(s: Text, rest: Text)
    ensures LexItem(Escape(s) + DOUBLE_QUOTE + rest) == Some((s, rest))
  {
    hide LexItem;
    if s == [] {
      assert Escape(s) + DOUBLE_QUOTE + rest == DOUBLE_QUOTE + rest;
      LexItemEnd(rest);
    } else {
      hide EscapeByte, Escape;
      var head, tail := EscapeByte(s[0]), Escape(s[1..]);
      EscapeCons(s);
      LexItemOfEscaped(s[1..], rest);
      LexItemStep(s[0], tail + DOUBLE_QUOTE + rest);
      assert head + tail + DOUBLE_QUOTE + rest == head + (tail + DOUBLE_QUOTE + rest);
      assert s == [s[0]] + s[1..];
    }
  }

  lemma ArrayItemIs(item: Text)
    ensures ArrayItem(item) == DOUBLE_QUOTE + Escape(item) + DOUBLE_QUOTE
  {
    SequentialEscapes(item);
  }

  lemma LexItemsLast(item: Text)
    ensures LexItems(ArrayItem(item) + ARRAY_CLOSE) == Some([item])
  {
    hide LexItem, Escape, ArrayItem;
    ArrayItemIs(item);
    var body := Escape(item) + DOUBLE_QUOTE + ARRAY_CLOSE;
    assert ArrayItem(item) + ARRAY_CLOSE == DOUBLE_QUOTE + body;
    StripPrefix(DOUBLE_QUOTE, body);
    LexItemOfEscaped(item, ARRAY_CLOSE);
  }

  lemma LexItemsMore(item: Text, tail: Text)
    requires LexItems(tail).Some?
    ensures LexItems(ArrayItem(item) + ITEM_COMMA + tail) == Some([item] + LexItems(tail).value)
  {
    hide LexItem, Escape, ArrayItem;
    ArrayItemIs(item);
    var body := Escape(item) + DOUBLE_QUOTE + (ITEM_COMMA + tail);
    assert ArrayItem(item) + ITEM_COMMA + tail == DOUBLE_QUOTE + body;
    StripPrefix(DOUBLE_QUOTE, body);
    LexItemOfEscaped(item, ITEM_COMMA + tail);
    StripPrefix(ITEM_COMMA, tail);
    assert (ITEM_COMMA + tail)[0] != ARRAY_CLOSE[0];
  }

  lemma {:induction false} LexItemsOfJoin(items: seq<Text>)
    requires items != []
    ensures LexItems(Join(ArrayItems(items), ITEM_COMMA) + ARRAY_CLOSE) == Some(items)
  {
    hide LexItems, Join, ArrayItem;
    var first, parts := ArrayItem(items[0]), ArrayItems(items[1..]);
    assert ArrayItems(items) == [first] + parts;
    if |items| == 1 {
      assert [first] + parts == [first] && items == [items[0]];
      JoinOne(first, ITEM_COMMA);
      LexItemsLast(items[0]);
    } else {
      JoinMore(first, parts, ITEM_COMMA);
      assert first + ITEM_COMMA + Join(parts, ITEM_COMMA) + ARRAY_CLOSE
          == first + ITEM_COMMA + (Join(parts, ITEM_COMMA) + ARRAY_CLOSE);
      LexItemsOfJoin(items[1..]);
      LexItemsMore(items[0], Join(parts, ITEM_COMMA) + ARRAY_CLOSE);
      assert items == [items[0]] + items[1..];
    }
  }

  /** Parsing a printed array gives back the list, for every list of byte strings. */
  lemma ArrayRoundTrip(items: seq<Text>)
    ensures ParseArray(ArrayLiteral(items)) == Some(items)
  {
    var body := Join(ArrayItems(items), ITEM_COMMA) + ARRAY_CLOSE;
    assert ArrayLiteral(items) == ARRAY_OPEN + body;
    StripPrefix(ARRAY_OPEN, body);
    if items == [] {
      assert body == ARRAY_CLOSE;
    } else {
      LexItemsOfJoin(items);
      assert body[0] == '"' by {
        assert ArrayItems(items)[0][0] == '"';
      }
    }
  }

  // ----- the text itself -----

  /** The spelling of the two statements; a wider INSERT joins its columns and its values the same way. */
  lemma StatementsSpelled(table: Text, a: Text, b: Text, v: Cell, w: Cell)
    ensures PrintTruncate(table) == "TRUNCATE TABLE " + table
    ensures PrintInsert(table, [a, b], [v, w])
         == "INSERT INTO " + (table + (" (" +
              (a + ", " + b + ")" + (" VALUES (" + (SqlLiteral(v) + ", " + SqlLiteral(w) + ")")))))
  {
    hide SqlLiteral, Join;
    TwoLiterals(v, w);
    JoinTwo(a, b, COMMA);
    JoinTwo(SqlLiteral(v), SqlLiteral(w), COMMA);
  }

  lemma TwoLiterals(v: Cell, w: Cell)
    ensures SqlLiterals([v, w]) == [SqlLiteral(v), SqlLiteral(w)]
  {
    hide SqlLiteral;
    RowCons([v, w]);
    RowCons([w]);
    assert [v, w][1..] == [w] && [w][1..] == [];
  }

  lemma JoinTwo(a: Text, b: Text, sep: Text)
    ensures Join([a, b], sep) == a + sep + b
  {
    assert [a, b][1..] == [b];
  }

  /** The spelling of the values: a quote is doubled, and nothing else in a string changes. */
  lemma ValuesSpelled(a: Text, b: Text)
    requires '\'' !in a && '\'' !in b
    ensures SqlLiteral(Null) == "NULL" && SqlLiteral(Bool(true)) == "TRUE" && SqlLiteral(Bool(false)) == "FALSE"
    ensures SqlLiteral(Int(-12)) == "-12" && SqlLiteral(Int(305)) == "305"
    ensures SqlLiteral(Str(a)) == "'" + a + "'"
    ensures SqlLiteral(Str(a + ['\''] + b)) == "'" + a + "''" + b + "'"
  {
    hide FormatInt, QuoteSqlString;
    IntegersSpelled();
    PlainQuoted(a);
    QuoteDoubled(a, b);
  }

  lemma PlainQuoted(a: Text)
    requires '\'' !in a
    ensures QuoteSqlString(a) == "'" + a + "'"
  {
    ReplaceNothing(a, '\'', TWO_QUOTES);
  }

  lemma QuoteDoubled(a: Text, b: Text)
    requires '\'' !in a && '\'' !in b
    ensures QuoteSqlString(a + ['\''] + b) == "'" + a + "''" + b + "'"
  {
    OneQuote(a, b);
    hide ReplaceAll;
    assert QUOTE + (a + TWO_QUOTES + b) + QUOTE == "'" + a + "''" + b + "'";
  }

  lemma OneQuote(a: Text, b: Text)
    requires '\'' !in a && '\'' !in b
    ensures ReplaceAll(a + ['\''] + b, '\'', TWO_QUOTES) == a + TWO_QUOTES + b
  {
    ReplaceNothing(a, '\'', TWO_QUOTES);
    ReplaceNothing(b, '\'', TWO_QUOTES);
    ReplaceAllConcat(a + ['\''], b, '\'', TWO_QUOTES);
    ReplaceAllConcat(a, ['\''], '\'', TWO_QUOTES);
    assert ['\''][1..] == [];
  }

  lemma IntegersSpelled()
    ensures FormatInt(-12) == "-12" && FormatInt(305) == "305"
  {
    assert Digits(12) == Digits(1) + [Digit(2)];
    assert Digits(305) == Digits(30) + [Digit(5)] && Digits(30) == Digits(3) + [Digit(0)];
  }

  lemma {:induction false} ReplaceNothing(s: Text, target: byte, fill: Text)
    requires target !in s
    ensures ReplaceAll(s, target, fill) == s
  {
    if s != [] {
      assert s == [s[0]] + s[1..];
      ReplaceNothing(s[1..], target, fill);
    }
  }

  predicate Plain(s: Text) {
    '\\' !in s && '"' !in s
  }

  /** The spelling of an array: each item in double quotes, with a backslash before each quote and backslash. */
  lemma ArraySpelled(a: Text, b: Text, c: byte)
    requires Plain(a) && Plain(b) && (c == '"' || c == '\\')
    ensures ArrayLiteral([]) == ['{', '}']
    ensures ArrayLiteral([a]) == ['{', '"'] + a + ['"', '}']
    ensures ArrayLiteral([a, b]) == ['{', '"'] + a + ['"', ',', '"'] + b + ['"', '}']
    ensures ArrayLiteral([a + [c] + b]) == ['{', '"'] + (a + ['\\', c] + b) + ['"', '}']
    ensures SqlLiteral(List([a, b])) == QuoteSqlString(ArrayLiteral([a, b]))
  {
    hide Escape, ArrayLiteral, Plain;
    ArrayOfNone();
    EscapeNothing(a);
    EscapeNothing(b);
    EscapeOne(a, b, c);
    ArrayOfOne(a);
    ArrayOfOne(a + [c] + b);
    ArrayOfTwo(a, b);
  }

  lemma {:induction false} EscapeNothing(s: Text)
    requires Plain(s)
    ensures Escape(s) == s
  {
    if s != [] {
      assert s == [s[0]] + s[1..];
      EscapeNothing(s[1..]);
    }
  }

  lemma {:induction false} EscapeOne(a: Text, b: Text, c: byte)
    requires Plain(a) && Plain(b) && (c == '"' || c == '\\')
    ensures Escape(a + [c] + b) == a + ['\\', c] + b
  {
    EscapeCons(a + [c] + b);
    if a == [] {
      assert a + [c] + b == [c] + b && ([c] + b)[1..] == b;
      EscapeNothing(b);
    } else {
      assert (a + [c] + b)[1..] == a[1..] + [c] + b;
      EscapeOne(a[1..], b, c);
      assert a == [a[0]] + a[1..];
    }
  }

  lemma ArrayOfNone()
    ensures ArrayLiteral([]) == ['{', '}']
  {
    assert ArrayItems([]) == [];
  }

  lemma ArrayOfOne(item: Text)
    ensures ArrayLiteral([item]) == ['{', '"'] + Escape(item) + ['"', '}']
  {
    hide Escape, ArrayItem;
    ArrayItemIs(item);
    assert [item][1..] == [] && ArrayItems([item]) == [ArrayItem(item)];
    JoinOne(ArrayItem(item), ITEM_COMMA);
  }

  lemma ArrayOfTwo(a: Text, b: Text)
    ensures ArrayLiteral([a, b]) == ['{', '"'] + Escape(a) + ['"', ',', '"'] + Escape(b) + ['"', '}']
  {
    hide Escape, ArrayItem;
    ArrayItemIs(a);
    ArrayItemIs(b);
    assert [a, b][1..] == [b] && [b][1..] == [];
    assert ArrayItems([a, b]) == [ArrayItem(a), ArrayItem(b)];
    JoinTwo(ArrayItem(a), ArrayItem(b), ITEM_COMMA);
  }
}
