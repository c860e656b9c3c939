/**
 The schema browser's table list (`build_schema` and `full_table_name`).
 */
module SchemaNames {
  import opened Text

  datatype Row = Row(schema: string, table: string, column: string, dataType: Option<string>)

  datatype Column = Bare(name: string) | Typed(name: string, dataType: string)

  datatype Table = Table(name: string, columns: seq<Column>)

  predicate Contains(s: string, c: char) {
    exists i :: 0 <= i < |s| && s[i] == c
  }

  function FullTableName(schema: string, name: string): string {
    schema + "." + if Contains(name, '.') then "\"" + name + "\"" else name
  }

  function TableNames(rows: seq<Row>): set<string> {
    set r | r in rows :: FullTableName(r.schema, r.table)
  }

  /** The public schema is left out of a name unless that name is some other table's full name. */
  function KeyOf(names: set<string>, r: Row): string {
    if r.schema != "public" || r.table in names then FullTableName(r.schema, r.table) else r.table
  }

  function ColumnOf(r: Row): Column {
    if r.dataType.Some? then Typed(r.column, r.dataType.value) else Bare(r.column)
  }

  /** Appends the column to the table with this key, which is created at the end if need be. */
  function AddColumn(tables: seq<Table>, key: string, column: Column): seq<Table> {
    if tables == [] then [Table(key, [column])]
    else if tables[0].name == key then [tables[0].(columns := tables[0].columns + [column])] + tables[1..]
    else [tables[0]] + AddColumn(tables[1..], key, column)
  }

  function AddRows(tables: seq<Table>, names: set<string>, rows: seq<Row>): seq<Table> {
    if rows == [] then tables
    else
      var r := rows[|rows| - 1];
      AddColumn(AddRows(tables, names, rows[..|rows| - 1]), KeyOf(names, r), ColumnOf(r))
  }

  // ----- names do not collide -----

  /** The schema holds a dot followed by a quote, and the full name ends in a quote. */
  predicate Ambiguous(schema: string, table: string) {
    QuoteAfterDot(schema) && (Contains(table, '.') || EndsInQuote(table))
  }

  predicate QuoteAfterDot(s: string) {
    exists p :: 0 <= p < |s| - 1 && s[p] == '.' && s[p + 1] == '"'
  }

  predicate EndsInQuote(s: string) {
    s != "" && s[|s| - 1] == '"'
  }

  lemma FullNameShape(schema: string, name: string)
    ensures var k := FullTableName(schema, name);
            if Contains(name, '.') then
              |k| == |schema| + |name| + 3 && k[|schema| + 1] == '"' && k[|k| - 1] == '"'
              && k[|schema| + 2..|k| - 1] == name
            else
              |k| == |schema| + |name| + 1 && k[|schema| + 1..] == name && !Contains(k[|schema| + 1..], '.')
    ensures FullTableName(schema, name)[..|schema|] == schema && FullTableName(schema, name)[|schema|] == '.'
  {
    var k := FullTableName(schema, name);
    if Contains(name, '.') {
      assert k == schema + ".\"" + name + "\"";
    } else {
      assert k == schema + "." + name;
    }
  }

  /** When two full names agree, the longer schema is ambiguous. */
  lemma LongerIsAmbiguous(s1: string, t1: string, s2: string, t2: string)
    requires FullTableName(s1, t1) == FullTableName(s2, t2) && |s1| < |s2|
    ensures Ambiguous(s2, t2)
  {
    var k := FullTableName(s1, t1);
    FullNameShape(s1, t1);
    FullNameShape(s2, t2);
    var n := |s1|;
    assert k[n + 1..][|s2| - n - 1] == '.';
    assert k[..|s2|][n] == '.' && k[..|s2|][n + 1] == '"';
    if !Contains(t2, '.') {
      assert k[|s2| + 1..][|t2| - 1] == '"';
    }
  }

  /** An ambiguous name is also the full name of a table in a shorter schema. */
  lemma AmbiguousIsShared(schema: string, table: string) returns (s: string, t: string)
    requires Ambiguous(schema, table)
    ensures |s| < |schema| && FullTableName(s, t) == FullTableName(schema, table)
  {
    var k := FullTableName(schema, table);
    FullNameShape(schema, table);
    var p :| 0 <= p < |schema| - 1 && schema[p] == '.' && schema[p + 1] == '"';
    var n := |k| - 1;
    assert k[p] == k[..|schema|][p] && k[p + 1] == k[..|schema|][p + 1];
    if !Contains(table, '.') {
      assert k[|schema| + 1..][|table| - 1] == '"';
    }
    s, t := k[..p], k[p + 2..n];
    assert t[|schema| - p - 2] == '.';
    QuotedShape(k, p, n);
  }

  lemma QuotedShape(k: string, p: nat, n: nat)
    requires p + 2 <= n && |k| == n + 1 && k[p] == '.' && k[p + 1] == '"' && k[n] == '"'
    ensures k == k[..p] + "." + ("\"" + k[p + 2..n] + "\"")
  {
  }

  /** Exactly the ambiguous names can be read with a shorter schema; they need a quote in the schema. */
  lemma SharedIffAmbiguous(schema: string, table: string)
    ensures Ambiguous(schema, table) ==> Contains(schema, '"')
    ensures Ambiguous(schema, table)
            <==> exists s, t :: |s| < |schema| && FullTableName(s, t) == FullTableName(schema, table)
  {
    if Ambiguous(schema, table) {
      var s, t := AmbiguousIsShared(schema, table);
    }
    if s, t :| |s| < |schema| && FullTableName(s, t) == FullTableName(schema, table) {
      LongerIsAmbiguous(s, t, schema, table);
    }
  }

  /** Otherwise the full name determines schema and table, dots or not. */
  lemma FullNameIsInjective(s1: string, t1: string, s2: string, t2: string)
    requires !Ambiguous(s1, t1) && !Ambiguous(s2, t2)
    requires FullTableName(s1, t1) == FullTableName(s2, t2)
    ensures s1 == s2 && t1 == t2
  {
    if |s1| < |s2| {
      LongerIsAmbiguous(s1, t1, s2, t2);
    } else if |s2| < |s1| {
      LongerIsAmbiguous(s2, t2, s1, t1);
    } else {
      FullNameShape(s1, t1);
      FullNameShape(s2, t2);
      SameSchema(s1, t1, t2);
    }
  }

  lemma SameSchema(schema: string, t1: string, t2: string)
    requires FullTableName(schema, t1) == FullTableName(schema, t2)
    ensures t1 == t2
  {
    FullNameShape(schema, t1);
    FullNameShape(schema, t2);
    var tail := FullTableName(schema, t1)[|schema| + 1..];
    if Contains(t1, '.') {
      var i :| 0 <= i < |t1| && t1[i] == '.';
      assert tail[i + 1] == '.';
    }
    if Contains(t2, '.') {
      var i :| 0 <= i < |t2| && t2[i] == '.';
      assert tail[i + 1] == '.';
    }
  }

  ghost predicate Clear(rows: seq<Row>) {
    forall r :: r in rows ==> !Ambiguous(r.schema, r.table)
  }

  /** Two rows get the same key exactly when they describe the same table. */
  lemma KeysAreTables(rows: seq<Row>, a: Row, b: Row)
    requires a in rows && b in rows && Clear(rows)
    ensures KeyOf(TableNames(rows), a) == KeyOf(TableNames(rows), b) <==> a.schema == b.schema && a.table == b.table
  {
    var names := TableNames(rows);
    assert FullTableName(a.schema, a.table) in names && FullTableName(b.schema, b.table) in names;
    if FullTableName(a.schema, a.table) == FullTableName(b.schema, b.table) {
      FullNameIsInjective(a.schema, a.table, b.schema, b.table);
    }
  }

  /** Double quotes in names do make two tables share a key. */
  lemma QuotesCollide()
    ensures FullTableName("a.\"b", "c\"") == FullTableName("a", "b.c")
  {
    assert "b.c"[1] == '.';
    assert !Contains("c\"", '.');
    assert "a.\"b" + "." + "c\"" == "a" + "." + ("\"" + "b.c" + "\"");
  }

  /** The full name in print: schema and table with a dot between, the table in quotes if it has a dot. */
  lemma FullNamePrints(schema: string, table: string)
    ensures FullTableName(schema, table) ==
            if '.' in table then schema + ".\"" + table + "\"" else schema + "." + table
  {
    assert '.' in table <==> Contains(table, '.');
  }

  /** A table is listed without its schema exactly when that is public and no table's full name is the bare one. */
  lemma BareExactly(rows: seq<Row>, r: Row)
    ensures KeyOf(TableNames(rows), r) ==
            if r.schema == "public" && forall x :: x in rows ==> FullTableName(x.schema, x.table) != r.table
            then r.table else FullTableName(r.schema, r.table)
  {
    if r.table in TableNames(rows) {
      var x :| x in rows && FullTableName(x.schema, x.table) == r.table;
    }
  }

  // ----- nothing is lost -----

  function ColumnsAt(tables: seq<Table>, key: string): seq<Column> {
    if tables == [] then [] else if tables[0].name == key then tables[0].columns else ColumnsAt(tables[1..], key)
  }

  function TotalColumns(tables: seq<Table>): nat {
    if tables == [] then 0 else |tables[0].columns| + TotalColumns(tables[1..])
  }

  ghost predicate DistinctTables(tables: seq<Table>) {
    forall i, j :: 0 <= i < j < |tables| ==> tables[i].name != tables[j].name
  }

  lemma {:induction false} AddColumnEffect(tables: seq<Table>, key: string, column: Column, other: string)
    ensures ColumnsAt(AddColumn(tables, key, column), other) == ColumnsAt(tables, other)
            + if other == key then [column] else []
    ensures TotalColumns(AddColumn(tables, key, column)) == TotalColumns(tables) + 1
    ensures forall t :: t in AddColumn(tables, key, column) ==>
                          t.name == key || exists u :: u in tables && u.name == t.name
  {
    if tables != [] {
      AddColumnEffect(tables[1..], key, column, other);
    }
  }

  lemma {:induction false} AddColumnDistinct(tables: seq<Table>, key: string, column: Column)
    requires DistinctTables(tables)
    ensures DistinctTables(AddColumn(tables, key, column))
  {
    if tables != [] && tables[0].name != key {
      AddColumnDistinct(tables[1..], key, column);
      AddColumnEffect(tables[1..], key, column, key);
      var rest := AddColumn(tables[1..], key, column);
      forall i | 0 <= i < |rest|
        ensures rest[i].name != tables[0].name
      {
        assert rest[i] in rest;
      }
    }
  }

  /** The columns of one table, in the order of the rows. */
  function ColumnsOf(rows: seq<Row>, schema: string, table: string): seq<Column> {
    if rows == [] then []
    else
      var r := rows[|rows| - 1];
      ColumnsOf(rows[..|rows| - 1], schema, table)
      + if r.schema == schema && r.table == table then [ColumnOf(r)] else []
  }

  /** The rows of one table, in order. */
  function RowsOf(rows: seq<Row>, schema: string, table: string): seq<Row> {
    Filter((r: Row) => r.schema == schema && r.table == table, rows)
  }

  /** Each listed column has its row's name, and its data type exactly when the row has one. */
  predicate Shows(c: Column, r: Row) {
    c.name == r.column && (c.Typed? <==> r.dataType.Some?) && (c.Typed? ==> Some(c.dataType) == r.dataType)
  }

  lemma {:induction false} ColumnsShowRows(rows: seq<Row>, schema: string, table: string)
    ensures |ColumnsOf(rows, schema, table)| == |RowsOf(rows, schema, table)|
    ensures forall i :: 0 <= i < |ColumnsOf(rows, schema, table)| ==>
                          Shows(ColumnsOf(rows, schema, table)[i], RowsOf(rows, schema, table)[i])
  {
    if rows != [] {
      var front, r := rows[..|rows| - 1], rows[|rows| - 1];
      ColumnsShowRows(front, schema, table);
      assert rows == front + [r];
      FilterConcat((r: Row) => r.schema == schema && r.table == table, front, [r]);
      FilterOne((r: Row) => r.schema == schema && r.table == table, r);
    }
  }

  lemma {:induction false} RowsEffect(rows: seq<Row>, all: seq<Row>, r: Row)
    requires r in all && (forall x :: x in rows ==> x in all) && Clear(all)
    ensures ColumnsAt(AddRows([], TableNames(all), rows), KeyOf(TableNames(all), r)) ==
            ColumnsOf(rows, r.schema, r.table)
  {
    if rows != [] {
      var last := rows[|rows| - 1];
      var names := TableNames(all);
      RowsEffect(rows[..|rows| - 1], all, r);
      AddColumnEffect(AddRows([], names, rows[..|rows| - 1]), KeyOf(names, last), ColumnOf(last), KeyOf(names, r));
      KeysAreTables(all, last, r);
    }
  }

  lemma {:induction false} RowsTotal(rows: seq<Row>, names: set<string>)
    ensures TotalColumns(AddRows([], names, rows)) == |rows| && DistinctTables(AddRows([], names, rows))
  {
    if rows != [] {
      var last := rows[|rows| - 1];
      RowsTotal(rows[..|rows| - 1], names);
      AddColumnEffect(AddRows([], names, rows[..|rows| - 1]), KeyOf(names, last), ColumnOf(last), "");
      AddColumnDistinct(AddRows([], names, rows[..|rows| - 1]), KeyOf(names, last), ColumnOf(last));
    }
  }

  /**
   Starting from an empty schema, every table is listed once, under a key of its own, with
   exactly its own columns in input order, and no column is lost or duplicated.
   */
  lemma SchemaIsLossless(rows: seq<Row>, r: Row)
    requires r in rows && Clear(rows)
    ensures var tables := AddRows([], TableNames(rows), rows);
            DistinctTables(tables)
            && ColumnsAt(tables, KeyOf(TableNames(rows), r)) == ColumnsOf(rows, r.schema, r.table)
            && TotalColumns(tables) == |rows|
  {
    RowsEffect(rows, rows, r);
    RowsTotal(rows, TableNames(rows));
  }

  /** The names of the listed tables, in order. */
  function NamesIn(tables: seq<Table>): seq<string> {
    if tables == [] then [] else [tables[0].name] + NamesIn(tables[1..])
  }

  lemma {:induction false} AddColumnNames(tables: seq<Table>, key: string, column: Column)
    ensures NamesIn(AddColumn(tables, key, column)) ==
            if key in NamesIn(tables) then NamesIn(tables) else NamesIn(tables) + [key]
  {
    if tables != [] && tables[0].name != key {
      AddColumnNames(tables[1..], key, column);
      assert key in NamesIn(tables) <==> key in NamesIn(tables[1..]);
    }
  }

  /** The columns of the rows with this key, in order. */
  function ColumnsWithKey(rows: seq<Row>, names: set<string>, key: string): seq<Column> {
    if rows == [] then []
    else
      var r := rows[|rows| - 1];
      ColumnsWithKey(rows[..|rows| - 1], names, key) + if KeyOf(names, r) == key then [ColumnOf(r)] else []
  }

  /** The keys of the tables before, then the others in the order in which the rows bring them. */
  function KeysAfter(before: seq<string>, names: set<string>, rows: seq<Row>): seq<string> {
    if rows == [] then before
    else
      var keys, key := KeysAfter(before, names, rows[..|rows| - 1]), KeyOf(names, rows[|rows| - 1]);
      if key in keys then keys else keys + [key]
  }

  /**
   Any rows added to any schema: each table keeps its columns and gets those of the rows
   with its key behind them, and new tables follow in the order of their first rows.
   */
  lemma {:induction false} RowsAreAppended(tables: seq<Table>, names: set<string>, rows: seq<Row>, key: string)
    ensures NamesIn(AddRows(tables, names, rows)) == KeysAfter(NamesIn(tables), names, rows)
    ensures ColumnsAt(AddRows(tables, names, rows), key) == ColumnsAt(tables, key) + ColumnsWithKey(rows, names, key)
  {
    if rows != [] {
      var front, r := rows[..|rows| - 1], rows[|rows| - 1];
      RowsAreAppended(tables, names, front, key);
      AddColumnNames(AddRows(tables, names, front), KeyOf(names, r), ColumnOf(r));
      AddColumnEffect(AddRows(tables, names, front), KeyOf(names, r), ColumnOf(r), key);
    }
  }

  lemma {:induction false} AddColumnSplit(tables: seq<Table>, i: nat, key: string, column: Column)
    requires i <= |tables| && forall j :: 0 <= j < i ==> tables[j].name != key
    ensures i == |tables| ==> AddColumn(tables, key, column) == tables + [Table(key, [column])]
    ensures i < |tables| && tables[i].name == key ==>
              AddColumn(tables, key, column) == tables[i := tables[i].(columns := tables[i].columns + [column])]
  {
    if i > 0 {
      AddColumnSplit(tables[1..], i - 1, key, column);
    }
  }

  // ----- the program -----

  class Schema {
    /** The dictionary in insertion order. */
    var tables: seq<Table>

    constructor ()
      ensures tables == []
    {
      tables := [];
    }

    method Append(key: string, column: Column)
      modifies this
      ensures tables == AddColumn(old(tables), key, column)
    {
      for i := 0 to |tables|
        invariant tables == old(tables)
        invariant forall j :: 0 <= j < i ==> tables[j].name != key
      {
        if tables[i].name == key {
          AddColumnSplit(tables, i, key, column);
          tables := tables[i := tables[i].(columns := tables[i].columns + [column])];
          return;
        }
      }
      AddColumnSplit(tables, |tables|, key, column);
      tables := tables + [Table(key, [column])];
    }

    method BuildSchema(rows: seq<Row>)
      modifies this
      ensures tables == AddRows(old(tables), TableNames(rows), rows)
    {
      var names := TableNames(rows);
      for i := 0 to |rows|
        invariant tables == AddRows(old(tables), names, rows[..i])
      {
        assert rows[..i + 1][..i] == rows[..i];
        Append(KeyOf(names, rows[i]), ColumnOf(rows[i]));
      }
      assert rows[..|rows|] == rows;
    }
  }
}
