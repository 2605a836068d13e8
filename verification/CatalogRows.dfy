/** The rows of the two catalog tables, and when they agree with the schema cache. */
module CatalogRows {
  import opened Bytes
  import opened Wrappers

  type Name = seq<byte>

  /** Type ids below this one are known. */
  const NUM_TYPES: nat := 5

  datatype Attribute = Attribute(name: Name, typ: nat)

  datatype TableInfo = TableInfo(typ: nat, schema: seq<Attribute>)

  datatype TableRow = TableRow(table: Name, typ: nat, attributes: nat)

  datatype ColumnRow = ColumnRow(attr: Name, rel: Name, typ: nat, position: nat)

  type Info = map<Name, TableInfo>
  type TableRows = map<int, TableRow>
  type ColumnRows = map<int, ColumnRow>

  // ----- agreement of cache and rows

  /** Row `r` records a table of the cache. */
  ghost predicate TableRowOk(info: Info, r: TableRow) {
    r.table in info && info[r.table].typ == r.typ && |info[r.table].schema| == r.attributes
  }

  ghost predicate ColumnRowOk(info: Info, r: ColumnRow) {
    r.rel in info && r.position < |info[r.rel].schema| && info[r.rel].schema[r.position] == Attribute(r.attr, r.typ)
  }

  ghost predicate HasTableRow(tables: TableRows, name: Name) {
    exists id :: id in tables && tables[id].table == name
  }

  ghost predicate HasColumnRow(columns: ColumnRows, name: Name, pos: nat) {
    exists id :: id in columns && columns[id].rel == name && columns[id].position == pos
  }

  /** The rows record exactly the cache: one row per table, one row per column. */
  ghost predicate Agrees(info: Info, tables: TableRows, columns: ColumnRows) {
    && (forall id {:trigger tables[id]} | id in tables :: TableRowOk(info, tables[id]))
    && (forall id, id' | id in tables && id' in tables && tables[id].table == tables[id'].table :: id == id')
    && (forall name | name in info :: HasTableRow(tables, name))
    && (forall id {:trigger columns[id]} | id in columns :: ColumnRowOk(info, columns[id]))
    && (forall id, id' | id in columns && id' in columns && columns[id].rel == columns[id'].rel
          && columns[id].position == columns[id'].position :: id == id')
    && (forall name, pos: nat | name in info && pos < |info[name].schema| :: HasColumnRow(columns, name, pos))
  }

  ghost predicate KnownTypes(info: Info) {
    forall name, pos | name in info && 0 <= pos < |info[name].schema| :: info[name].schema[pos].typ < NUM_TYPES
  }

  // ----- reloading

  const BLANK: Attribute := Attribute([], 0)

  function Blank(n: nat): (s: seq<Attribute>)
    ensures |s| == n && forall i | 0 <= i < n :: s[i] == BLANK
  {
    seq(n, i => BLANK)
  }

  /** One table row enters the cache with an empty schema of the right length. */
  function LoadTable(info: Info, r: TableRow): Info { info[r.table := TableInfo(r.typ, Blank(r.attributes))] }

  /** One column row fills its place in the schema. An unknown type is reported as corruption;
      a row that names no place of any schema has no defined effect. */
  function LoadColumn(info: Info, r: ColumnRow): Result<Info> {
    if r.typ >= NUM_TYPES || r.rel !in info || r.position >= |info[r.rel].schema| then Err
    else Ok(info[r.rel := info[r.rel].(schema := info[r.rel].schema[r.position := Attribute(r.attr, r.typ)])])
  }

  /** Halfway through loading the column rows: the tables are there, and a column is filled
      in exactly if its row has been seen. */
  ghost predicate Filled(info: Info, loaded: Info, columns: ColumnRows, rest: set<int>) {
    && loaded.Keys == info.Keys
    && (forall name | name in info :: loaded[name].typ == info[name].typ
          && |loaded[name].schema| == |info[name].schema|)
    && (forall id | id in columns && id !in rest && ColumnRowOk(info, columns[id]) ::
          loaded[columns[id].rel].schema[columns[id].position] == Attribute(columns[id].attr, columns[id].typ))
  }

  /** The cache has blank entries of the right shape for the tables in `names`. */
  ghost predicate SameShape(info: Info, loaded: Info, names: set<Name>) {
    && loaded.Keys == names <= info.Keys
    && forall name | name in names :: loaded[name].typ == info[name].typ && |loaded[name].schema| == |info[name].schema|
  }

  lemma FillOne(info: Info, tables: TableRows, columns: ColumnRows, loaded: Info, rest: set<int>, id: int)
    requires Agrees(info, tables, columns) && Filled(info, loaded, columns, rest) && id in columns && id in rest
    requires LoadColumn(loaded, columns[id]).Ok?
    ensures Filled(info, LoadColumn(loaded, columns[id]).value, columns, rest - {id})
  {
  }

  lemma AllFilled(info: Info, tables: TableRows, columns: ColumnRows, loaded: Info)
    requires Agrees(info, tables, columns) && Filled(info, loaded, columns, {})
    requires forall id | id in columns :: columns[id].typ < NUM_TYPES
    ensures loaded == info && KnownTypes(info)
  {
    forall name, pos: nat | name in info && pos < |info[name].schema|
      ensures loaded[name].schema[pos] == info[name].schema[pos] && info[name].schema[pos].typ < NUM_TYPES
    {
      assert HasColumnRow(columns, name, pos);
      var id :| id in columns && columns[id].rel == name && columns[id].position == pos;
      assert ColumnRowOk(info, columns[id]);
    }
    forall name | name in info ensures loaded[name] == info[name] {
      assert loaded[name].schema == info[name].schema;
    }
  }

  // ----- what additions and removals do to the rows

  /** Column rows for the first `n` attributes of a table that the cache does not have yet. */
  ghost predicate Recording(info: Info, columns: ColumnRows, name: Name, schema: seq<Attribute>, columns': ColumnRows,
                            n: nat) {
    && name !in info && n <= |schema|
    && columns.Keys <= columns'.Keys && (forall id | id in columns :: columns'[id] == columns[id])
    && (forall id | id in columns' && id !in columns ::
          columns'[id].rel == name && columns'[id].position < n &&
          columns'[id] == ColumnRow(schema[columns'[id].position].name, name, schema[columns'[id].position].typ,
              columns'[id].position))
    && (forall id, id' | id in columns' && id' in columns' && id !in columns && id' !in columns
          && columns'[id].position == columns'[id'].position :: id == id')
    && (forall pos: nat | pos < n :: HasColumnRow(columns', name, pos))
  }

  lemma RecordOne(info: Info, columns: ColumnRows, name: Name, schema: seq<Attribute>, columns': ColumnRows, n: nat,
                  id: int)
    requires Recording(info, columns, name, schema, columns', n) && n < |schema| && id !in columns'
    ensures var r := ColumnRow(schema[n].name, name, schema[n].typ, n);
            Recording(info, columns, name, schema, columns'[id := r], n + 1)
  {
    var next := columns'[id := ColumnRow(schema[n].name, name, schema[n].typ, n)];
    assert next[id].position == n;
    forall pos: nat | pos < n + 1 ensures HasColumnRow(next, name, pos) {
      if pos < n {
        assert HasColumnRow(columns', name, pos);
        var i :| i in columns' && columns'[i].rel == name && columns'[i].position == pos;
        assert i in next && next[i] == columns'[i];
      }
    }
  }

  /** With the rows of a new table in place, the enlarged cache agrees again. */
  lemma AddAgrees(info: Info, tables: TableRows, columns: ColumnRows, name: Name, typ: nat, schema: seq<Attribute>,
                  id: int, columns': ColumnRows)
    requires Agrees(info, tables, columns) && id !in tables
    requires Recording(info, columns, name, schema, columns', |schema|)
    ensures Agrees(info[name := TableInfo(typ, schema)], tables[id := TableRow(name, typ, |schema|)], columns')
  {
    var info', tables' := info[name := TableInfo(typ, schema)], tables[id := TableRow(name, typ, |schema|)];
    forall i | i in tables' ensures TableRowOk(info', tables'[i]) { assert i != id ==> TableRowOk(info, tables[i]); }
    forall i | i in columns' ensures ColumnRowOk(info', columns'[i]) {
      assert i in columns ==> ColumnRowOk(info, columns[i]);
    }
    forall n | n in info' ensures HasTableRow(tables', n) {
      if n == name {
        assert tables'[id].table == name;
      } else {
        assert HasTableRow(tables, n);
        var i :| i in tables && tables[i].table == n;
        assert tables'[i].table == n;
      }
    }
    forall n, pos: nat | n in info' && pos < |info'[n].schema| ensures HasColumnRow(columns', n, pos) {
      if n != name {
        assert HasColumnRow(columns, n, pos);
        var i :| i in columns && columns[i].rel == n && columns[i].position == pos;
        assert columns'[i] == columns[i];
      }
    }
    forall i, i' | i in columns' && i' in columns' && columns'[i].rel == columns'[i'].rel
        && columns'[i].position == columns'[i'].position
      ensures i == i'
    {
      assert i in columns ==> ColumnRowOk(info, columns[i]);
      assert i' in columns ==> ColumnRowOk(info, columns[i']);
    }
    forall i, i' | i in tables' && i' in tables' && tables'[i].table == tables'[i'].table ensures i == i' {
      assert i in tables ==> TableRowOk(info, tables[i]);
      assert i' in tables ==> TableRowOk(info, tables[i']);
    }
  }

  /** `t'` keeps exactly the rows of `t` that are not about table `name`. */
  ghost predicate TablesWithout(t: TableRows, name: Name, t': TableRows) {
    && (forall id | id in t' :: id in t && t'[id] == t[id] && t[id].table != name)
    && (forall id | id in t && t[id].table != name :: id in t')
  }

  ghost predicate ColumnsWithout(t: ColumnRows, name: Name, t': ColumnRows) {
    && (forall id | id in t' :: id in t && t'[id] == t[id] && t[id].rel != name)
    && (forall id | id in t && t[id].rel != name :: id in t')
  }

  lemma RemoveAgrees(info: Info, tables: TableRows, columns: ColumnRows, name: Name, tables': TableRows,
                     columns': ColumnRows)
    requires Agrees(info, tables, columns)
    requires TablesWithout(tables, name, tables') && ColumnsWithout(columns, name, columns')
    ensures Agrees(info - {name}, tables', columns')
  {
    var info' := info - {name};
    forall i | i in tables' ensures TableRowOk(info', tables'[i]) { assert TableRowOk(info, tables[i]); }
    forall i | i in columns' ensures ColumnRowOk(info', columns'[i]) { assert ColumnRowOk(info, columns[i]); }
    forall n | n in info' ensures HasTableRow(tables', n) {
      assert HasTableRow(tables, n);
      var i :| i in tables && tables[i].table == n;
      assert i in tables' && tables'[i].table == n;
    }
    forall n, pos: nat | n in info' && pos < |info'[n].schema| ensures HasColumnRow(columns', n, pos) {
      assert HasColumnRow(columns, n, pos);
      var i :| i in columns && columns[i].rel == n && columns[i].position == pos;
      assert i in columns' && columns'[i] == columns[i];
    }
  }
}
