/** The catalog: table schemas cached in memory and recorded in two tables, one row per table
    and one per column.

    The catalog tables are tables like all others, on disk or in memory: rows are built,
    inserted, scanned and deleted as bytes. */
module Catalog {
  import opened Bytes
  import opened Wrappers
  import opened CatalogRows
  import opened TableHandle
  import RC = RowCodec
  import TS = TableStorage
  import DiskFile
  import DiskTable

  const IN_MEMORY: nat := 0

  /** Longest string that a row can hold. */
  const MAX_STRING: nat := 0xFFFF

  /** Type ids, sizes and positions are stored as 32-bit integers. */
  const INT_LIMIT: nat := 0x8000_0000

  /** The bytes of an ASCII string are its character codes. */
  function Ascii(s: string): (b: seq<byte>)
    ensures |b| == |s| && forall i | 0 <= i < |s| && (s[i] as int) < 256 :: b[i] == s[i] as int
  {
    seq(|s|, i requires 0 <= i < |s| => (s[i] as int) % 256)
  }

  const TABLE_CATALOG: Name := Ascii("table_catalog")
  const COLUMN_CATALOG: Name := Ascii("column_catalog")

  /** The schemas of the catalog tables, as the row codec uses them. */
  const TABLE_ROW: RC.Schema := [
    RC.Column(Ascii("table_name"), RC.TypeString),
    RC.Column(Ascii("type"), RC.TypeI32),
    RC.Column(Ascii("num_attributes"), RC.TypeI32)
  ]

  const COLUMN_ROW: RC.Schema := [
    RC.Column(Ascii("attr_name"), RC.TypeString),
    RC.Column(Ascii("rel_name"), RC.TypeString),
    RC.Column(Ascii("type"), RC.TypeI32),
    RC.Column(Ascii("position"), RC.TypeI32)
  ]

  function TypeId(t: RC.Type): nat {
    match t
    case TypeI32 => 0
    case TypeString => 1
    case TypeU32 => 2
    case TypeI64 => 3
    case TypeF64 => 4
  }

  /** A schema as the catalog describes it. */
  function Described(schema: RC.Schema): (r: seq<Attribute>)
    ensures |r| == |schema| && forall i | 0 <= i < |r| :: r[i] == Attribute(schema[i].name, TypeId(schema[i].typ))
  {
    seq(|schema|, i requires 0 <= i < |schema| => Attribute(schema[i].name, TypeId(schema[i].typ)))
  }

  // ----- type ids

  /** The types a value can have, in the order in which they are declared. Ids are stored, so
      the order is part of the format. */
  const VARIANTS: seq<RC.Type> := [RC.TypeI32, RC.TypeString, RC.TypeU32, RC.TypeI64, RC.TypeF64]

  /** The id of a type is its place among the types. */
  lemma TypeIdIsPlace(t: RC.Type, i: nat)
    ensures TypeId(t) == i <==> i < |VARIANTS| && VARIANTS[i] == t
  {
    assert VARIANTS[0] == RC.TypeI32 && VARIANTS[1] == RC.TypeString && VARIANTS[2] == RC.TypeU32;
    assert VARIANTS[3] == RC.TypeI64 && VARIANTS[4] == RC.TypeF64;
  }

  /** An id is known exactly if it is the id of a type. */
  lemma KnownTypeIff(i: nat)
    ensures i < NUM_TYPES <==> exists t :: TypeId(t) == i
  {
    if i < NUM_TYPES {
      TypeIdIsPlace(VARIANTS[i], i);
    }
    forall t | TypeId(t) == i ensures i < NUM_TYPES { TypeIdIsPlace(t, i); }
  }

  /** A schema that describes columns of types that exist. */
  ghost predicate Typed(schema: seq<Attribute>) { exists s: RC.Schema :: schema == Described(s) }

  lemma TypedIff(schema: seq<Attribute>)
    ensures Typed(schema) <==> forall i | 0 <= i < |schema| :: schema[i].typ < NUM_TYPES
  {
    if forall i | 0 <= i < |schema| :: schema[i].typ < NUM_TYPES {
      var s := seq(|schema|, i requires 0 <= i < |schema| => RC.Column(schema[i].name, VARIANTS[schema[i].typ]));
      forall i | 0 <= i < |schema| ensures Described(s)[i] == schema[i] {
        TypeIdIsPlace(VARIANTS[schema[i].typ], schema[i].typ);
      }
      assert schema == Described(s);
    }
    if Typed(schema) {
      var s: RC.Schema :| schema == Described(s);
      forall i | 0 <= i < |schema| ensures schema[i].typ < NUM_TYPES { KnownTypeIff(schema[i].typ); }
    }
  }

  // ----- catalog rows as bytes

  function TableValues(r: TableRow): seq<RC.Value> { [RC.Str(r.table), RC.I32(r.typ), RC.I32(r.attributes)] }

  function ColumnValues(r: ColumnRow): seq<RC.Value> {
    [RC.Str(r.attr), RC.Str(r.rel), RC.I32(r.typ), RC.I32(r.position)]
  }

  predicate TableInts(r: TableRow) { r.typ < INT_LIMIT && r.attributes < INT_LIMIT }

  predicate ColumnInts(r: ColumnRow) { r.typ < INT_LIMIT && r.position < INT_LIMIT }

  /** A number can be stored exactly if it is a 32-bit integer, a name exactly if its length has
      16 bits. */
  lemma LimitsAreExact(n: nat, name: Name)
    ensures n < INT_LIMIT <==> RC.InRange(RC.I32(n))
    ensures |name| <= MAX_STRING <==> RC.Encode(RC.Str(name)).Ok?
  {
  }

  lemma TableRowBytes(r: TableRow)
    requires TableInts(r)
    ensures RC.Fits(TABLE_ROW, TableValues(r)) && (RC.Encodable(TableValues(r)) <==> |r.table| <= MAX_STRING)
    ensures |r.table| <= MAX_STRING ==> |RC.EncodeRow(TableValues(r))| == |r.table| + 10
  {
    var v := TableValues(r);
    if |r.table| <= MAX_STRING {
      assert RC.Encodable(v);
      assert RC.Prefix(v, 1) == [] + RC.Encode(v[0]).value;
      assert RC.Prefix(v, 2) == RC.Prefix(v, 1) + RC.Encode(v[1]).value;
      assert RC.Prefix(v, 3) == RC.Prefix(v, 2) + RC.Encode(v[2]).value;
    } else {
      assert RC.Encode(v[0]).Err?;
    }
  }

  lemma ColumnRowBytes(r: ColumnRow)
    requires ColumnInts(r)
    ensures RC.Fits(COLUMN_ROW, ColumnValues(r))
    ensures RC.Encodable(ColumnValues(r)) <==> |r.attr| <= MAX_STRING && |r.rel| <= MAX_STRING
    ensures RC.Encodable(ColumnValues(r)) ==> |RC.EncodeRow(ColumnValues(r))| == |r.attr| + |r.rel| + 12
  {
    var v := ColumnValues(r);
    if |r.attr| <= MAX_STRING && |r.rel| <= MAX_STRING {
      assert RC.Encodable(v);
      assert RC.Prefix(v, 1) == [] + RC.Encode(v[0]).value;
      assert RC.Prefix(v, 2) == RC.Prefix(v, 1) + RC.Encode(v[1]).value;
      assert RC.Prefix(v, 3) == RC.Prefix(v, 2) + RC.Encode(v[2]).value;
      assert RC.Prefix(v, 4) == RC.Prefix(v, 3) + RC.Encode(v[3]).value;
    } else {
      assert RC.Encode(v[0]).Err? || RC.Encode(v[1]).Err?;
    }
  }

  /** Reads a table row back from its bytes. */
  method ReadTableRow(row: seq<byte>, ghost r: TableRow) returns (r': TableRow)
    requires RC.Encodable(TableValues(r)) && row == RC.EncodeRow(TableValues(r))
    ensures r' == r
  {
    ghost var v := TableValues(r);
    assert RC.InRange(v[1]) && RC.InRange(v[2]);
    RC.RowRoundTrip(TABLE_ROW, v, 0);
    RC.RowRoundTrip(TABLE_ROW, v, 1);
    RC.RowRoundTrip(TABLE_ROW, v, 2);
    var name, typ, n := RC.GetValue(TABLE_ROW, row, 0), RC.GetValue(TABLE_ROW, row, 1), RC.GetValue(TABLE_ROW, row, 2);
    r' := TableRow(name.value.chars, typ.value.i, n.value.i);
  }

  method ReadColumnRow(row: seq<byte>, ghost r: ColumnRow) returns (r': ColumnRow)
    requires RC.Encodable(ColumnValues(r)) && row == RC.EncodeRow(ColumnValues(r))
    ensures r' == r
  {
    ghost var v := ColumnValues(r);
    assert RC.InRange(v[2]) && RC.InRange(v[3]);
    RC.RowRoundTrip(COLUMN_ROW, v, 0);
    RC.RowRoundTrip(COLUMN_ROW, v, 1);
    RC.RowRoundTrip(COLUMN_ROW, v, 2);
    RC.RowRoundTrip(COLUMN_ROW, v, 3);
    var attr, rel := RC.GetValue(COLUMN_ROW, row, 0), RC.GetValue(COLUMN_ROW, row, 1);
    var typ, position := RC.GetValue(COLUMN_ROW, row, 2), RC.GetValue(COLUMN_ROW, row, 3);
    r' := ColumnRow(attr.value.chars, rel.value.chars, typ.value.i, position.value.i);
  }

  // ----- reloading

  /** The ids that the first `n` rows of a scan have not read. */
  ghost function Unread<T>(typed: map<int, T>, scan: seq<TS.Row>, n: nat): set<int> {
    set id | id in typed && !Occurs(scan, id, n)
  }

  /** Reading one more row leaves one id less. */
  lemma ReadOne<T>(code: T -> seq<RC.Value>, typed: map<int, T>, scan: seq<TS.Row>, n: nat)
    requires Lists(code, typed, scan) && n < |scan|
    ensures scan[n].0 in typed && scan[n].0 in Unread(typed, scan, n)
    ensures Unread(typed, scan, n + 1) == Unread(typed, scan, n) - {scan[n].0}
  {
    assert ListedAt(code, typed, scan, n);
    forall id | id in typed ensures Occurs(scan, id, n + 1) <==> Occurs(scan, id, n) || id == scan[n].0 {
      if id == scan[n].0 {
        assert scan[n].0 == id;
      }
      if Occurs(scan, id, n) {
        var m :| 0 <= m < n && scan[m].0 == id;
        assert scan[m].0 == id;
      }
    }
  }

  lemma AllRead<T>(code: T -> seq<RC.Value>, typed: map<int, T>, scan: seq<TS.Row>)
    requires Lists(code, typed, scan)
    ensures Unread(typed, scan, |scan|) == {}
  {
  }

  /** Halfway through the table rows: the tables whose rows have been read have blank entries. */
  ghost predicate HalfLoaded(info: Info, tables: TableRows, loaded: Info, unread: set<int>) {
    && SameShape(info, loaded, loaded.Keys)
    && forall id: int | id in tables && id !in unread :: tables[id].table in loaded
  }

  lemma LoadedNext(info: Info, tables: TableRows, loaded: Info, unread: set<int>, id: int)
    requires HalfLoaded(info, tables, loaded, unread) && id in tables && TableRowOk(info, tables[id])
    ensures HalfLoaded(info, tables, LoadTable(loaded, tables[id]), unread - {id})
  {
  }

  lemma AllLoaded(info: Info, tables: TableRows, loaded: Info)
    requires HalfLoaded(info, tables, loaded, {}) && forall name | name in info :: HasTableRow(tables, name)
    ensures SameShape(info, loaded, info.Keys)
  {
    forall name | name in info ensures name in loaded { assert HasTableRow(tables, name); }
  }

  /** The first pass: a blank entry for every table. */
  method LoadTables(scan: seq<TS.Row>, ghost tables: TableRows, ghost info: Info) returns (loaded: Info)
    requires Lists(TableValues, tables, scan)
    requires forall id | id in tables :: TableRowOk(info, tables[id])
    requires forall name | name in info :: HasTableRow(tables, name)
    ensures SameShape(info, loaded, info.Keys)
  {
    loaded := map[];
    for m := 0 to |scan|
      invariant HalfLoaded(info, tables, loaded, Unread(tables, scan, m))
    {
      ghost var id := scan[m].0;
      ReadOne(TableValues, tables, scan, m);
      assert ListedAt(TableValues, tables, scan, m);
      var r := ReadTableRow(scan[m].1, tables[id]);
      LoadedNext(info, tables, loaded, Unread(tables, scan, m), id);
      loaded := LoadTable(loaded, r);
    }
    AllRead(TableValues, tables, scan);
    AllLoaded(info, tables, loaded);
  }

  /** Halfway through the column rows: those that have been read are filled in. */
  ghost predicate HalfFilled(info: Info, loaded: Info, columns: ColumnRows, unread: set<int>) {
    && Filled(info, loaded, columns, unread)
    && forall id: int | id in columns && id !in unread :: columns[id].typ < NUM_TYPES
  }

  lemma FilledNext(info: Info, tables: TableRows, columns: ColumnRows, loaded: Info, unread: set<int>, id: int)
    requires Agrees(info, tables, columns) && HalfFilled(info, loaded, columns, unread) && id in columns && id in unread
    ensures LoadColumn(loaded, columns[id]).Err? ==> !KnownTypes(info)
    ensures LoadColumn(loaded, columns[id]).Ok? ==>
              HalfFilled(info, LoadColumn(loaded, columns[id]).value, columns, unread - {id})
  {
    assert ColumnRowOk(info, columns[id]);
    if LoadColumn(loaded, columns[id]).Ok? {
      FillOne(info, tables, columns, loaded, unread, id);
    } else {
      assert info[columns[id].rel].schema[columns[id].position].typ >= NUM_TYPES;
    }
  }

  /** The second pass fills in the columns; a type that is not known is reported. */
  method LoadColumns(scan: seq<TS.Row>, blank: Info, ghost tables: TableRows, ghost columns: ColumnRows,
                     ghost info: Info)
    returns (r: Result<Info>)
    requires Lists(ColumnValues, columns, scan) && Agrees(info, tables, columns) && SameShape(info, blank, info.Keys)
    ensures r.Ok? <==> KnownTypes(info)
    ensures r.Ok? ==> r.value == info
  {
    var loaded := blank;
    for m := 0 to |scan|
      invariant HalfFilled(info, loaded, columns, Unread(columns, scan, m))
    {
      ghost var id := scan[m].0;
      ReadOne(ColumnValues, columns, scan, m);
      assert ListedAt(ColumnValues, columns, scan, m);
      var row := ReadColumnRow(scan[m].1, columns[id]);
      FilledNext(info, tables, columns, loaded, Unread(columns, scan, m), id);
      var next := LoadColumn(loaded, row);
      if next.Err? {
        return Err;
      }
      loaded := next.value;
    }
    AllRead(ColumnValues, columns, scan);
    AllFilled(info, tables, columns, loaded);
    r := Ok(loaded);
  }

  /** Rebuilding the cache from the stored rows, whatever the order in which the scans read
      them, gives the cache back; a type that is not known makes it fail. */
  method Reload(tableScan: seq<TS.Row>, columnScan: seq<TS.Row>, ghost tables: TableRows, ghost columns: ColumnRows,
                ghost info: Info)
    returns (r: Result<Info>)
    requires Lists(TableValues, tables, tableScan) && Lists(ColumnValues, columns, columnScan)
    requires Agrees(info, tables, columns)
    ensures r.Ok? <==> KnownTypes(info)
    ensures r.Ok? ==> r.value == info
  {
    var blank := LoadTables(tableScan, tables, info);
    r := LoadColumns(columnScan, blank, tables, columns, info);
  }

  // ----- storing and deleting catalog rows

  /** What an addition comes to. A string of more than 65535 bytes makes it throw; for a row
      that does not fit on a disk page the code has no defined behaviour. */
  datatype AddResult = Added | Exists | TooLong | NoRoom

  function RowResult(e: TS.Engine, longest: nat, size: nat): AddResult {
    if longest > MAX_STRING then TooLong else if !TS.Storable(e, size) then NoRoom else Added
  }

  function TableResult(e: TS.Engine, name: Name): AddResult { RowResult(e, |name|, |name| + 10) }

  function ColumnResult(e: TS.Engine, attr: Name, rel: Name): AddResult {
    RowResult(e, if |attr| > |rel| then |attr| else |rel|, |attr| + |rel| + 12)
  }

  /** The result of the first `n` column rows: that of the first one that is not stored. */
  function ColumnsResult(e: TS.Engine, rel: Name, schema: seq<Attribute>, n: nat): AddResult
    requires n <= |schema|
  {
    if n == 0 then Added
    else if ColumnsResult(e, rel, schema, n - 1) != Added then ColumnsResult(e, rel, schema, n - 1)
    else ColumnResult(e, schema[n - 1].name, rel)
  }

  lemma {:induction false} FirstFailureStays(e: TS.Engine, rel: Name, schema: seq<Attribute>, n: nat, m: nat)
    requires n <= m <= |schema| && ColumnsResult(e, rel, schema, n) != Added
    ensures ColumnsResult(e, rel, schema, m) == ColumnsResult(e, rel, schema, n)
  {
    if n < m {
      FirstFailureStays(e, rel, schema, n, m - 1);
    }
  }

  method InsertTable(e: TS.Engine, r: TableRow, ghost tables: TableRows)
    returns (o: AddResult, ghost tables': TableRows, ghost id: nat)
    requires TS.Ok(e) && TS.Space(e) > 0 && Holds(TableValues, TS.RowsOf(e), tables) && TableInts(r)
    modifies TS.Objects(e)
    ensures TS.Ok(e) && TS.Space(e) >= old(TS.Space(e)) - 1 && Holds(TableValues, TS.RowsOf(e), tables')
    ensures o == TableResult(e, r.table)
    ensures if o == Added then id !in tables && tables' == tables[id := r] else tables' == tables
  {
    TableRowBytes(r);
    id := 0;
    var s := TableHandle.InsertRow(e, TABLE_ROW, TableValues(r));
    o, tables' := if s.Threw? then TooLong else NoRoom, tables;
    if s.Stored? {
      HoldsInserted(TableValues, old(TS.RowsOf(e)), tables, s.id, r);
      FreshId(TableValues, old(TS.RowsOf(e)), tables, s.id);
      o, tables', id := Added, tables[s.id := r], s.id;
    }
  }

  lemma FreshId<T>(code: T -> seq<RC.Value>, rows: imap<nat, seq<byte>>, typed: map<int, T>, id: nat)
    requires Holds(code, rows, typed) && id !in rows
    ensures id !in typed
  {
    assert id in typed ==> HoldsAt(code, rows, typed, id);
  }

  method InsertColumn(e: TS.Engine, r: ColumnRow, ghost columns: ColumnRows)
    returns (o: AddResult, ghost columns': ColumnRows, ghost id: nat)
    requires TS.Ok(e) && TS.Space(e) > 0 && Holds(ColumnValues, TS.RowsOf(e), columns) && ColumnInts(r)
    modifies TS.Objects(e)
    ensures TS.Ok(e) && TS.Space(e) >= old(TS.Space(e)) - 1 && Holds(ColumnValues, TS.RowsOf(e), columns')
    ensures o == ColumnResult(e, r.attr, r.rel)
    ensures if o == Added then id !in columns && columns' == columns[id := r] else columns' == columns
  {
    ColumnRowBytes(r);
    id := 0;
    var s := TableHandle.InsertRow(e, COLUMN_ROW, ColumnValues(r));
    o, columns' := if s.Threw? then TooLong else NoRoom, columns;
    if s.Stored? {
      HoldsInserted(ColumnValues, old(TS.RowsOf(e)), columns, s.id, r);
      FreshId(ColumnValues, old(TS.RowsOf(e)), columns, s.id);
      o, columns', id := Added, columns[s.id := r], s.id;
    }
  }

  predicate SchemaInts(schema: seq<Attribute>) {
    |schema| < INT_LIMIT && forall i | 0 <= i < |schema| :: schema[i].typ < INT_LIMIT
  }

  /** Records the columns of a table one by one, up to the first failure. */
  method InsertColumns(e: TS.Engine, name: Name, schema: seq<Attribute>, ghost columns: ColumnRows, ghost info: Info)
    returns (o: AddResult, ghost columns': ColumnRows)
    requires TS.Ok(e) && TS.Space(e) >= |schema| && Holds(ColumnValues, TS.RowsOf(e), columns)
    requires SchemaInts(schema) && name !in info
    modifies TS.Objects(e)
    ensures TS.Ok(e) && TS.Space(e) >= old(TS.Space(e)) - |schema| && Holds(ColumnValues, TS.RowsOf(e), columns')
    ensures o == ColumnsResult(e, name, schema, |schema|)
    ensures o == Added ==> Recording(info, columns, name, schema, columns', |schema|)
  {
    o, columns' := Added, columns;
    for n := 0 to |schema|
      invariant TS.Ok(e) && TS.Space(e) >= old(TS.Space(e)) - n && Holds(ColumnValues, TS.RowsOf(e), columns')
      invariant o == ColumnsResult(e, name, schema, n) == Added && Recording(info, columns, name, schema, columns', n)
    {
      o, columns' := InsertNextColumn(e, name, schema, n, columns, columns', info);
      if o != Added {
        FirstFailureStays(e, name, schema, n + 1, |schema|);
        return;
      }
    }
  }

  method InsertNextColumn(e: TS.Engine, name: Name, schema: seq<Attribute>, n: nat, ghost columns: ColumnRows,
                          ghost before: ColumnRows, ghost info: Info)
    returns (o: AddResult, ghost columns': ColumnRows)
    requires TS.Ok(e) && TS.Space(e) > 0 && Holds(ColumnValues, TS.RowsOf(e), before) && SchemaInts(schema)
             && n < |schema|
    requires ColumnsResult(e, name, schema, n) == Added && Recording(info, columns, name, schema, before, n)
    modifies TS.Objects(e)
    ensures TS.Ok(e) && TS.Space(e) >= old(TS.Space(e)) - 1 && Holds(ColumnValues, TS.RowsOf(e), columns')
    ensures o == ColumnsResult(e, name, schema, n + 1)
    ensures o == Added ==> Recording(info, columns, name, schema, columns', n + 1)
  {
    ghost var id;
    o, columns', id := InsertColumn(e, ColumnRow(schema[n].name, name, schema[n].typ, n), before);
    if o == Added {
      RecordOne(info, columns, name, schema, before, n, id);
    }
  }

  /** `ids` are the distinct ids of the column rows of a table, but for the unread ones. */
  ghost predicate CollectedBut(columns: ColumnRows, name: Name, ids: seq<nat>, unread: set<int>) {
    && (forall m | 0 <= m < |ids| :: ids[m] in columns && columns[ids[m]].rel == name && ids[m] !in unread)
    && DistinctIds(ids)
    && (forall id: int | id in columns && columns[id].rel == name :: id in ids || id in unread)
  }

  ghost predicate Collected(columns: ColumnRows, scan: seq<TS.Row>, name: Name, ids: seq<nat>, n: nat) {
    CollectedBut(columns, name, ids, Unread(columns, scan, n))
  }

  lemma CollectedNext(columns: ColumnRows, scan: seq<TS.Row>, name: Name, ids: seq<nat>, n: nat, id: nat)
    requires Lists(ColumnValues, columns, scan) && n < |scan| && id == scan[n].0
             && Collected(columns, scan, name, ids, n)
    ensures id in columns
    ensures Collected(columns, scan, name, if columns[id].rel == name then ids + [id] else ids, n + 1)
  {
    ReadOne(ColumnValues, columns, scan, n);
    CollectedOne(columns, name, ids, Unread(columns, scan, n), Unread(columns, scan, n + 1), id);
  }

  /** The same for any set of ids that have not been read. */
  lemma CollectedOne(columns: ColumnRows, name: Name, ids: seq<nat>, unread: set<int>, unread': set<int>, id: nat)
    requires CollectedBut(columns, name, ids, unread) && id in columns && id in unread && unread' == unread - {id}
    ensures CollectedBut(columns, name, if columns[id].rel == name then ids + [id] else ids, unread')
  {
    var ids' := if columns[id].rel == name then ids + [id] else ids;
    forall i: int | i in columns && columns[i].rel == name ensures i in ids' || i in unread' {
      assert i in ids ==> i in ids';
      assert i == id ==> ids'[|ids|] == i;
    }
  }

  method CollectColumns(e: TS.Engine, name: Name, ghost columns: ColumnRows) returns (ids: seq<nat>)
    requires TS.Ok(e) && Holds(ColumnValues, TS.RowsOf(e), columns)
    ensures DistinctIds(ids) && forall id | id in columns :: columns[id].rel == name <==> id in ids
    ensures forall m | 0 <= m < |ids| :: ids[m] in columns
  {
    var scan := ScanTyped(e, ColumnValues, columns);
    ids := CollectFrom(scan, name, columns);
  }

  method CollectFrom(scan: seq<TS.Row>, name: Name, ghost columns: ColumnRows) returns (ids: seq<nat>)
    requires Lists(ColumnValues, columns, scan)
    ensures DistinctIds(ids) && forall id | id in columns :: columns[id].rel == name <==> id in ids
    ensures forall m | 0 <= m < |ids| :: ids[m] in columns
  {
    ids := [];
    for n := 0 to |scan|
      invariant Collected(columns, scan, name, ids, n)
    {
      assert ListedAt(ColumnValues, columns, scan, n);
      var r := ReadColumnRow(scan[n].1, columns[scan[n].0]);
      CollectedNext(columns, scan, name, ids, n, scan[n].0);
      if r.rel == name {
        ids := ids + [scan[n].0];
      }
    }
    AllRead(ColumnValues, columns, scan);
  }

  ghost predicate DistinctIds(ids: seq<nat>) {
    forall l, m | 0 <= l < m < |ids| :: ids[l] != ids[m]
  }

  /** The rows without the first `n` ids of a list. */
  ghost function Without(columns: ColumnRows, ids: seq<nat>, n: nat): ColumnRows
    requires n <= |ids|
  {
    if n == 0 then columns else Without(columns, ids, n - 1) - {ids[n - 1]}
  }

  lemma {:induction false} WithoutIds(columns: ColumnRows, ids: seq<nat>, n: nat, id: int)
    requires n <= |ids|
    ensures id in Without(columns, ids, n) <==> id in columns && id !in ids[..n]
    ensures id in Without(columns, ids, n) ==> Without(columns, ids, n)[id] == columns[id]
  {
    if n > 0 {
      WithoutIds(columns, ids, n - 1, id);
      assert ids[..n] == ids[..n - 1] + [ids[n - 1]];
    }
  }

  lemma WithoutAll(columns: ColumnRows, ids: seq<nat>, name: Name)
    requires forall id | id in columns :: columns[id].rel == name <==> id in ids
    ensures ColumnsWithout(columns, name, Without(columns, ids, |ids|))
  {
    var rest := Without(columns, ids, |ids|);
    assert ids[..|ids|] == ids;
    forall id | id in rest ensures id in columns && rest[id] == columns[id] && columns[id].rel != name {
      WithoutIds(columns, ids, |ids|, id);
    }
    forall id | id in columns && columns[id].rel != name ensures id in rest {
      WithoutIds(columns, ids, |ids|, id);
    }
  }

  /** Deletes one of the typed rows. */
  method DeleteColumn(e: TS.Engine, id: nat, ghost columns: ColumnRows)
    requires TS.Ok(e) && Holds(ColumnValues, TS.RowsOf(e), columns) && id in columns
    modifies TS.Objects(e)
    ensures TS.Ok(e) && TS.Space(e) == old(TS.Space(e)) && Holds(ColumnValues, TS.RowsOf(e), columns - {id})
  {
    assert HoldsAt(ColumnValues, TS.RowsOf(e), columns, id);
    HoldsDeleted(ColumnValues, TS.RowsOf(e), columns, id);
    TS.Delete(e, id);
  }

  /** Collects the column rows of a table in one scan, then deletes them. */
  method DeleteColumns(e: TS.Engine, name: Name, ghost columns: ColumnRows) returns (ghost columns': ColumnRows)
    requires TS.Ok(e) && Holds(ColumnValues, TS.RowsOf(e), columns)
    modifies TS.Objects(e)
    ensures TS.Ok(e) && TS.Space(e) == old(TS.Space(e)) && Holds(ColumnValues, TS.RowsOf(e), columns')
    ensures ColumnsWithout(columns, name, columns')
  {
    var ids := CollectColumns(e, name, columns);
    ghost var space := TS.Space(e);
    for n := 0 to |ids|
      invariant Deleting(e, columns, ids, n, space)
    {
      NotDeletedYet(columns, ids, n);
      DeleteNext(e, ids, n, columns, space);
    }
    WithoutAll(columns, ids, name);
    columns' := Without(columns, ids, |ids|);
  }

  /** The first `n` of the collected rows have been deleted. */
  ghost predicate Deleting(e: TS.Engine, columns: ColumnRows, ids: seq<nat>, n: nat, space: int)
    requires n <= |ids|
    reads TS.Objects(e)
  {
    TS.Ok(e) && TS.Space(e) == space && Holds(ColumnValues, TS.RowsOf(e), Without(columns, ids, n))
  }

  lemma NotDeletedYet(columns: ColumnRows, ids: seq<nat>, n: nat)
    requires DistinctIds(ids) && n < |ids| && ids[n] in columns
    ensures ids[n] in Without(columns, ids, n)
  {
    WithoutIds(columns, ids, n, ids[n]);
  }

  method DeleteNext(e: TS.Engine, ids: seq<nat>, n: nat, ghost columns: ColumnRows, ghost space: int)
    requires n < |ids| && Deleting(e, columns, ids, n, space) && ids[n] in Without(columns, ids, n)
    modifies TS.Objects(e)
    ensures Deleting(e, columns, ids, n + 1, space)
  {
    DeleteColumn(e, ids[n], Without(columns, ids, n));
  }

  /** Finds the table's row and deletes it; there is at most one. */
  method DeleteTable(e: TS.Engine, name: Name, ghost tables: TableRows) returns (ghost tables': TableRows)
    requires TS.Ok(e) && Holds(TableValues, TS.RowsOf(e), tables)
    requires forall id, id' | id in tables && id' in tables && tables[id].table == tables[id'].table :: id == id'
    modifies TS.Objects(e)
    ensures TS.Ok(e) && TS.Space(e) == old(TS.Space(e)) && Holds(TableValues, TS.RowsOf(e), tables')
    ensures TablesWithout(tables, name, tables')
  {
    var rid := FindTable(e, name, tables);
    tables' := tables;
    if rid.Some? {
      DeleteTableRow(e, rid.value, tables);
      tables' := tables - {rid.value};
    }
  }

  method DeleteTableRow(e: TS.Engine, id: nat, ghost tables: TableRows)
    requires TS.Ok(e) && Holds(TableValues, TS.RowsOf(e), tables) && id in tables
    modifies TS.Objects(e)
    ensures TS.Ok(e) && TS.Space(e) == old(TS.Space(e)) && Holds(TableValues, TS.RowsOf(e), tables - {id})
  {
    assert HoldsAt(TableValues, TS.RowsOf(e), tables, id);
    HoldsDeleted(TableValues, TS.RowsOf(e), tables, id);
    TS.Delete(e, id);
  }

  method FindTable(e: TS.Engine, name: Name, ghost tables: TableRows) returns (rid: Option<nat>)
    requires TS.Ok(e) && Holds(TableValues, TS.RowsOf(e), tables)
    ensures rid.Some? ==> rid.value in tables && tables[rid.value].table == name
    ensures rid.None? ==> forall id | id in tables :: tables[id].table != name
  {
    var scan := ScanTyped(e, TableValues, tables);
    rid := FindIn(scan, name, tables);
  }

  method FindIn(scan: seq<TS.Row>, name: Name, ghost tables: TableRows) returns (rid: Option<nat>)
    requires Lists(TableValues, tables, scan)
    ensures rid.Some? ==> rid.value in tables && tables[rid.value].table == name
    ensures rid.None? ==> forall id | id in tables :: tables[id].table != name
  {
    for n := 0 to |scan|
      invariant forall id | id in tables && id !in Unread(tables, scan, n) :: tables[id].table != name
    {
      ReadOne(TableValues, tables, scan, n);
      assert ListedAt(TableValues, tables, scan, n);
      var r := ReadTableRow(scan[n].1, tables[scan[n].0]);
      if r.table == name {
        return Some(scan[n].0);
      }
    }
    AllRead(TableValues, tables, scan);
    rid := None;
  }

  // ----- the catalog

  /** The cache of a new database: the catalog describes its own two tables. */
  function Bootstrap(): Info {
    map[TABLE_CATALOG := TableInfo(IN_MEMORY, Described(TABLE_ROW))]
    [COLUMN_CATALOG := TableInfo(IN_MEMORY, Described(COLUMN_ROW))]
  }

  /** What a new catalog knows, with the type ids of strings and of 32-bit integers. */
  lemma BootstrapContents()
    ensures TABLE_CATALOG == Ascii("table_catalog") && COLUMN_CATALOG == Ascii("column_catalog")
    ensures TABLE_CATALOG != COLUMN_CATALOG && Bootstrap().Keys == {TABLE_CATALOG, COLUMN_CATALOG}
    ensures Bootstrap()[TABLE_CATALOG] == TableInfo(0, [
      Attribute(Ascii("table_name"), 1), Attribute(Ascii("type"), 0), Attribute(Ascii("num_attributes"), 0)])
    ensures Bootstrap()[COLUMN_CATALOG] == TableInfo(0, [
      Attribute(Ascii("attr_name"), 1), Attribute(Ascii("rel_name"), 1), Attribute(Ascii("type"), 0),
      Attribute(Ascii("position"), 0)])
  {
    assert |TABLE_CATALOG| == 13 && |COLUMN_CATALOG| == 14;
    TypeIdIsPlace(RC.TypeString, 1);
    TypeIdIsPlace(RC.TypeI32, 0);
  }

  /** Each value of a stored catalog row has the type that the cached id of its column stands
      for. */
  lemma CatalogRowsAreTyped(t: TableRow, c: ColumnRow, i: nat)
    ensures i < 3 ==>
              var typ := Bootstrap()[TABLE_CATALOG].schema[i].typ;
              typ < |VARIANTS| && RC.TypeOf(TableValues(t)[i]) == VARIANTS[typ]
    ensures i < 4 ==>
              var typ := Bootstrap()[COLUMN_CATALOG].schema[i].typ;
              typ < |VARIANTS| && RC.TypeOf(ColumnValues(c)[i]) == VARIANTS[typ]
  {
    BootstrapContents();
  }

  /** The result of an addition under a new name. */
  function AddOutcome(tableStore: TS.Engine, columnStore: TS.Engine, name: Name, schema: seq<Attribute>): AddResult {
    if TableResult(tableStore, name) != Added then TableResult(tableStore, name)
    else ColumnsResult(columnStore, name, schema, |schema|)
  }

  lemma {:induction false} ColumnsAddedIff(e: TS.Engine, rel: Name, schema: seq<Attribute>, n: nat)
    requires n <= |schema|
    ensures ColumnsResult(e, rel, schema, n) == Added <==>
            forall i | 0 <= i < n :: ColumnResult(e, schema[i].name, rel) == Added
  {
    if n > 0 {
      ColumnsAddedIff(e, rel, schema, n - 1);
    }
  }

  /** On disk a table can be added exactly if its name and each of its column names leave room
      for the integers of their rows on a page. */
  lemma AddedOnDiskIff(tableStore: TS.Engine, columnStore: TS.Engine, name: Name, schema: seq<Attribute>)
    requires tableStore.OnDisk? && columnStore.OnDisk?
    ensures AddOutcome(tableStore, columnStore, name, schema) == Added <==>
            && |name| + 10 <= DiskTable.MAX_ROW
            && forall i | 0 <= i < |schema| :: |schema[i].name| + |name| + 12 <= DiskTable.MAX_ROW
  {
    ColumnsAddedIff(columnStore, name, schema, |schema|);
    forall i | 0 <= i < |schema|
      ensures ColumnResult(columnStore, schema[i].name, name) == Added <==>
              |schema[i].name| + |name| + 12 <= DiskTable.MAX_ROW
    {
    }
  }

  /** In memory every name that a row can hold will do. */
  lemma AddedInMemoryIff(tableStore: TS.Engine, columnStore: TS.Engine, name: Name, schema: seq<Attribute>)
    requires tableStore.InMemory? && columnStore.InMemory?
    ensures AddOutcome(tableStore, columnStore, name, schema) == Added <==>
            |name| <= MAX_STRING && forall i | 0 <= i < |schema| :: |schema[i].name| <= MAX_STRING
  {
    ColumnsAddedIff(columnStore, name, schema, |schema|);
    forall i | 0 <= i < |schema| && |name| <= MAX_STRING
      ensures ColumnResult(columnStore, schema[i].name, name) == Added <==> |schema[i].name| <= MAX_STRING
    {
    }
  }

  /** The catalog's own names are short. */
  lemma BootstrapFits(tableStore: TS.Engine, columnStore: TS.Engine)
    ensures TableResult(tableStore, TABLE_CATALOG) == TableResult(tableStore, COLUMN_CATALOG) == Added
    ensures ColumnsResult(columnStore, TABLE_CATALOG, Described(TABLE_ROW), 3) == Added
    ensures ColumnsResult(columnStore, COLUMN_CATALOG, Described(COLUMN_ROW), 4) == Added
    ensures TABLE_CATALOG != COLUMN_CATALOG && KnownTypes(Bootstrap())
    ensures SchemaInts(Described(TABLE_ROW)) && SchemaInts(Described(COLUMN_ROW))
  {
    assert |TABLE_CATALOG| == 13 && |COLUMN_CATALOG| == 14;
    ColumnsAddedIff(columnStore, TABLE_CATALOG, Described(TABLE_ROW), 3);
    ColumnsAddedIff(columnStore, COLUMN_CATALOG, Described(COLUMN_ROW), 4);
  }

  /** Both catalog tables are intact and hold the typed rows. */
  ghost predicate StoresOk(tableStore: TS.Engine, columnStore: TS.Engine, tables: TableRows, columns: ColumnRows)
    reads TS.Objects(tableStore), TS.Objects(columnStore)
  {
    && TS.Ok(tableStore) && TS.Ok(columnStore)
    && Holds(TableValues, TS.RowsOf(tableStore), tables) && Holds(ColumnValues, TS.RowsOf(columnStore), columns)
  }

  /** Rebuilds the cache from the two tables. */
  method ReloadStored(tableStore: TS.Engine, columnStore: TS.Engine, ghost tables: TableRows,
                      ghost columns: ColumnRows, ghost info: Info)
    returns (r: Result<Info>)
    requires StoresOk(tableStore, columnStore, tables, columns) && Agrees(info, tables, columns)
    ensures r.Ok? <==> KnownTypes(info)
    ensures r.Ok? ==> r.value == info
  {
    var tableScan := ScanTyped(tableStore, TableValues, tables);
    var columnScan := ScanTyped(columnStore, ColumnValues, columns);
    r := Reload(tableScan, columnScan, tables, columns, info);
  }

  /** Stores a row in the table of tables. */
  method StoreTableRow(tableStore: TS.Engine, columnStore: TS.Engine, r: TableRow, ghost tables: TableRows,
                       ghost columns: ColumnRows)
    returns (o: AddResult, ghost tables': TableRows, ghost id: nat)
    requires TS.Objects(tableStore) !! TS.Objects(columnStore) && StoresOk(tableStore, columnStore, tables, columns)
    requires TS.Space(tableStore) > 0 && TableInts(r)
    modifies TS.Objects(tableStore)
    ensures StoresOk(tableStore, columnStore, tables', columns) && TS.Space(columnStore) == old(TS.Space(columnStore))
    ensures TS.Space(tableStore) >= old(TS.Space(tableStore)) - 1
    ensures o == TableResult(tableStore, r.table)
    ensures if o == Added then id !in tables && tables' == tables[id := r] else tables' == tables
  {
    o, tables', id := InsertTable(tableStore, r, tables);
    TS.Untouched(columnStore);
  }

  /** Stores the rows of a table's columns, up to the first failure. */
  method StoreColumnRows(tableStore: TS.Engine, columnStore: TS.Engine, name: Name, schema: seq<Attribute>,
                         ghost tables: TableRows, ghost columns: ColumnRows, ghost info: Info)
    returns (o: AddResult, ghost columns': ColumnRows)
    requires TS.Objects(tableStore) !! TS.Objects(columnStore) && StoresOk(tableStore, columnStore, tables, columns)
    requires TS.Space(columnStore) >= |schema| && SchemaInts(schema) && name !in info
    modifies TS.Objects(columnStore)
    ensures StoresOk(tableStore, columnStore, tables, columns') && TS.Space(tableStore) == old(TS.Space(tableStore))
    ensures TS.Space(columnStore) >= old(TS.Space(columnStore)) - |schema|
    ensures o == ColumnsResult(columnStore, name, schema, |schema|)
    ensures o == Added ==> Recording(info, columns, name, schema, columns', |schema|)
  {
    o, columns' := InsertColumns(columnStore, name, schema, columns, info);
    TS.Untouched(tableStore);
  }

  /** Stores the rows of a new table. */
  method AddRows(tableStore: TS.Engine, columnStore: TS.Engine, name: Name, typ: nat, schema: seq<Attribute>,
                 ghost tables: TableRows, ghost columns: ColumnRows, ghost info: Info)
    returns (r: AddResult, ghost tables': TableRows, ghost columns': ColumnRows)
    requires TS.Objects(tableStore) !! TS.Objects(columnStore) && StoresOk(tableStore, columnStore, tables, columns)
    requires TS.Space(tableStore) > 0 && TS.Space(columnStore) >= |schema|
    requires Agrees(info, tables, columns) && name !in info && typ < INT_LIMIT && SchemaInts(schema)
    modifies TS.Objects(tableStore), TS.Objects(columnStore)
    ensures StoresOk(tableStore, columnStore, tables', columns')
    ensures TS.Space(tableStore) >= old(TS.Space(tableStore)) - 1
    ensures TS.Space(columnStore) >= old(TS.Space(columnStore)) - |schema|
    ensures r == AddOutcome(tableStore, columnStore, name, schema)
    ensures r == Added ==> Agrees(info[name := TableInfo(typ, schema)], tables', columns')
    ensures TableResult(tableStore, name) != Added ==> tables' == tables && columns' == columns
    ensures r != Added && TableResult(tableStore, name) == Added ==>
              HasTableRow(tables', name) && !Agrees(info, tables', columns')
  {
    ghost var id;
    columns' := columns;
    r, tables', id := StoreTableRow(tableStore, columnStore, TableRow(name, typ, |schema|), tables, columns);
    if r == Added {
      r, columns' := StoreColumnRows(tableStore, columnStore, name, schema, tables', columns, info);
      AfterAdding(info, tables, columns, name, typ, schema, id, columns', r == Added);
    }
  }

  /** With all rows stored the enlarged cache agrees; with the table row alone nothing does. */
  lemma AfterAdding(info: Info, tables: TableRows, columns: ColumnRows, name: Name, typ: nat, schema: seq<Attribute>,
                    id: nat, columns': ColumnRows, all: bool)
    requires Agrees(info, tables, columns) && id !in tables && name !in info
    requires all ==> Recording(info, columns, name, schema, columns', |schema|)
    ensures var tables' := tables[id := TableRow(name, typ, |schema|)];
            && HasTableRow(tables', name) && !Agrees(info, tables', columns')
            && (all ==> Agrees(info[name := TableInfo(typ, schema)], tables', columns'))
  {
    var tables' := tables[id := TableRow(name, typ, |schema|)];
    assert tables'[id].table == name && !TableRowOk(info, tables'[id]);
    if all {
      AddAgrees(info, tables, columns, name, typ, schema, id, columns');
    }
  }

  /** Deletes the rows of a table's columns. */
  method DropColumnRows(tableStore: TS.Engine, columnStore: TS.Engine, name: Name, ghost tables: TableRows,
                        ghost columns: ColumnRows)
    returns (ghost columns': ColumnRows)
    requires TS.Objects(tableStore) !! TS.Objects(columnStore) && StoresOk(tableStore, columnStore, tables, columns)
    modifies TS.Objects(columnStore)
    ensures StoresOk(tableStore, columnStore, tables, columns') && ColumnsWithout(columns, name, columns')
    ensures TS.Space(tableStore) == old(TS.Space(tableStore)) && TS.Space(columnStore) == old(TS.Space(columnStore))
  {
    columns' := DeleteColumns(columnStore, name, columns);
    TS.Untouched(tableStore);
  }

  /** Deletes the row of a table. */
  method DropTableRow(tableStore: TS.Engine, columnStore: TS.Engine, name: Name, ghost tables: TableRows,
                      ghost columns: ColumnRows)
    returns (ghost tables': TableRows)
    requires TS.Objects(tableStore) !! TS.Objects(columnStore) && StoresOk(tableStore, columnStore, tables, columns)
    requires forall id, id' | id in tables && id' in tables && tables[id].table == tables[id'].table :: id == id'
    modifies TS.Objects(tableStore)
    ensures StoresOk(tableStore, columnStore, tables', columns) && TablesWithout(tables, name, tables')
    ensures TS.Space(tableStore) == old(TS.Space(tableStore)) && TS.Space(columnStore) == old(TS.Space(columnStore))
  {
    tables' := DeleteTable(tableStore, name, tables);
    TS.Untouched(columnStore);
  }

  /** Deletes the rows of a table, its column rows first. */
  method RemoveRows(tableStore: TS.Engine, columnStore: TS.Engine, name: Name, ghost tables: TableRows,
                    ghost columns: ColumnRows, ghost info: Info)
    returns (ghost tables': TableRows, ghost columns': ColumnRows)
    requires TS.Objects(tableStore) !! TS.Objects(columnStore) && StoresOk(tableStore, columnStore, tables, columns)
    requires Agrees(info, tables, columns)
    modifies TS.Objects(tableStore), TS.Objects(columnStore)
    ensures StoresOk(tableStore, columnStore, tables', columns') && Agrees(info - {name}, tables', columns')
    ensures TS.Space(tableStore) == old(TS.Space(tableStore)) && TS.Space(columnStore) == old(TS.Space(columnStore))
  {
    columns' := DropColumnRows(tableStore, columnStore, name, tables, columns);
    tables' := DropTableRow(tableStore, columnStore, name, tables, columns');
    RemoveAgrees(info, tables, columns, name, tables', columns');
  }

  class SchemaCatalog {
    const tableStore: TS.Engine
    const columnStore: TS.Engine
    var info: Info
    /** The stored rows. */
    ghost var tables: TableRows
    ghost var columns: ColumnRows

    ghost predicate Apart()
      reads this
    {
      && TS.Objects(tableStore) !! TS.Objects(columnStore)
      && this !in TS.Objects(tableStore) && this !in TS.Objects(columnStore)
    }

    ghost predicate Valid()
      reads this, TS.Objects(tableStore), TS.Objects(columnStore)
    {
      Apart() && StoresOk(tableStore, columnStore, tables, columns) && Agrees(info, tables, columns)
    }

    /** The catalog of a database that has been used before is loaded from its rows. */
    constructor Open(tableStore: TS.Engine, columnStore: TS.Engine, ghost tables: TableRows, ghost columns: ColumnRows,
                     ghost info: Info)
      requires TS.Objects(tableStore) !! TS.Objects(columnStore) && StoresOk(tableStore, columnStore, tables, columns)
      requires Agrees(info, tables, columns) && KnownTypes(info)
      ensures Valid() && fresh(this) && this.info == info && this.tables == tables && this.columns == columns
      ensures this.tableStore == tableStore && this.columnStore == columnStore
    {
      this.tableStore, this.columnStore := tableStore, columnStore;
      this.tables, this.columns := tables, columns;
      var loaded := ReloadStored(tableStore, columnStore, tables, columns, info);
      this.info := loaded.value;
    }

    /** The catalog tables are not affected when the fields of the catalog change. */
    method Update(ghost t: TableRows, ghost c: ColumnRows, i: Info)
      requires Apart()
      modifies this`tables, this`columns, this`info
      ensures tables == t && columns == c && info == i
      ensures StoresOk(tableStore, columnStore, t, c) == old(StoresOk(tableStore, columnStore, t, c))
      ensures TS.Space(tableStore) == old(TS.Space(tableStore)) && TS.Space(columnStore) == old(TS.Space(columnStore))
    {
      tables, columns, info := t, c, i;
    }

    /** Adds a table unless the name is taken. If one of its column rows is not stored, the
        table row stays behind, and the rows no longer agree with the cache. */
    method AddTable(name: Name, typ: nat, schema: seq<Attribute>) returns (r: AddResult)
      requires Valid() && TS.Space(tableStore) > 0 && TS.Space(columnStore) >= |schema|
      requires typ < INT_LIMIT && SchemaInts(schema)
      modifies this, TS.Objects(tableStore), TS.Objects(columnStore)
      ensures r == if name in old(info) then Exists else AddOutcome(tableStore, columnStore, name, schema)
      ensures TS.Space(tableStore) >= old(TS.Space(tableStore)) - 1
      ensures TS.Space(columnStore) >= old(TS.Space(columnStore)) - |schema|
      ensures info == if r == Added then old(info)[name := TableInfo(typ, schema)] else old(info)
      ensures name in old(info) || r == Added || TableResult(tableStore, name) != Added ==> Valid()
      ensures name !in old(info) && r != Added && TableResult(tableStore, name) == Added ==>
                HasTableRow(tables, name) && !Agrees(info, tables, columns)
    {
      if name in info {
        return Exists;
      }
      ghost var t, c;
      r, t, c := AddRows(tableStore, columnStore, name, typ, schema, tables, columns, info);
      Update(t, c, if r == Added then info[name := TableInfo(typ, schema)] else info);
    }

    /** Removes a table: its column rows, its table row, and its entry in the cache. */
    method RemoveTable(name: Name) returns (ok: bool)
      requires Valid()
      modifies this, TS.Objects(tableStore), TS.Objects(columnStore)
      ensures Valid() && (ok <==> name in old(info)) && info == old(info) - {name}
      ensures TS.Space(tableStore) == old(TS.Space(tableStore)) && TS.Space(columnStore) == old(TS.Space(columnStore))
    {
      ok := name in info;
      if ok {
        ghost var t, c := RemoveRows(tableStore, columnStore, name, tables, columns, info);
        Update(t, c, info - {name});
      }
    }
  }

  /** A new database: the catalog records its own two tables, first in the table of tables and
      then column by column, and is loaded from these rows. */
  method NewCatalog(tableStore: TS.Engine, columnStore: TS.Engine) returns (c: SchemaCatalog)
    requires TS.Objects(tableStore) !! TS.Objects(columnStore) && StoresOk(tableStore, columnStore, map[], map[])
    requires TS.Space(tableStore) >= 2 && TS.Space(columnStore) >= 7
    modifies TS.Objects(tableStore), TS.Objects(columnStore)
    ensures fresh(c) && c.Valid() && c.info == Bootstrap() && KnownTypes(c.info)
    ensures c.tableStore == tableStore && c.columnStore == columnStore
    ensures TS.Space(tableStore) >= old(TS.Space(tableStore)) - 2
            && TS.Space(columnStore) >= old(TS.Space(columnStore)) - 7
  {
    BootstrapFits(tableStore, columnStore);
    ghost var tables, columns, info := RecordBootstrap(tableStore, columnStore);
    c := new SchemaCatalog.Open(tableStore, columnStore, tables, columns, info);
  }

  method RecordBootstrap(tableStore: TS.Engine, columnStore: TS.Engine)
    returns (ghost tables: TableRows, ghost columns: ColumnRows, ghost info: Info)
    requires TS.Objects(tableStore) !! TS.Objects(columnStore) && StoresOk(tableStore, columnStore, map[], map[])
    requires TS.Space(tableStore) >= 2 && TS.Space(columnStore) >= 7
    modifies TS.Objects(tableStore), TS.Objects(columnStore)
    ensures StoresOk(tableStore, columnStore, tables, columns) && info == Bootstrap() && Agrees(info, tables, columns)
    ensures TS.Space(tableStore) >= old(TS.Space(tableStore)) - 2
            && TS.Space(columnStore) >= old(TS.Space(columnStore)) - 7
  {
    ghost var id1, id2, columns1;
    tables, id1, id2 := RecordBothTables(tableStore, columnStore);
    columns1, columns := RecordBothSchemas(tableStore, columnStore, tables);
    BootstrapAgrees(id1, columns1, id2, columns);
    info := Bootstrap();
  }

  ghost function BothTables(id1: nat, id2: nat): TableRows {
    map[id1 := TableRow(TABLE_CATALOG, IN_MEMORY, 3)][id2 := TableRow(COLUMN_CATALOG, IN_MEMORY, 4)]
  }

  method RecordBothTables(tableStore: TS.Engine, columnStore: TS.Engine)
    returns (ghost tables: TableRows, ghost id1: nat, ghost id2: nat)
    requires TS.Objects(tableStore) !! TS.Objects(columnStore) && StoresOk(tableStore, columnStore, map[], map[])
    requires TS.Space(tableStore) >= 2
    modifies TS.Objects(tableStore)
    ensures StoresOk(tableStore, columnStore, tables, map[]) && id1 != id2 && tables == BothTables(id1, id2)
    ensures TS.Space(tableStore) >= old(TS.Space(tableStore)) - 2 && TS.Space(columnStore) == old(TS.Space(columnStore))
  {
    BootstrapFits(tableStore, columnStore);
    var o;
    o, tables, id1 := StoreTableRow(tableStore, columnStore, TableRow(TABLE_CATALOG, IN_MEMORY, 3), map[], map[]);
    o, tables, id2 := StoreTableRow(tableStore, columnStore, TableRow(COLUMN_CATALOG, IN_MEMORY, 4), tables, map[]);
  }

  ghost function OwnSchema(): Info { map[TABLE_CATALOG := TableInfo(IN_MEMORY, Described(TABLE_ROW))] }

  method RecordBothSchemas(tableStore: TS.Engine, columnStore: TS.Engine, ghost tables: TableRows)
    returns (ghost columns1: ColumnRows, ghost columns2: ColumnRows)
    requires TS.Objects(tableStore) !! TS.Objects(columnStore) && StoresOk(tableStore, columnStore, tables, map[])
    requires TS.Space(columnStore) >= 7
    modifies TS.Objects(columnStore)
    ensures StoresOk(tableStore, columnStore, tables, columns2)
    ensures Recording(map[], map[], TABLE_CATALOG, Described(TABLE_ROW), columns1, 3)
    ensures Recording(OwnSchema(), columns1, COLUMN_CATALOG, Described(COLUMN_ROW), columns2, 4)
    ensures TS.Space(tableStore) == old(TS.Space(tableStore)) && TS.Space(columnStore) >= old(TS.Space(columnStore)) - 7
  {
    BootstrapFits(tableStore, columnStore);
    var o;
    o, columns1 := StoreColumnRows(tableStore, columnStore, TABLE_CATALOG, Described(TABLE_ROW), tables, map[], map[]);
    o, columns2 := StoreColumnRows(tableStore, columnStore, COLUMN_CATALOG, Described(COLUMN_ROW), tables, columns1,
        OwnSchema());
  }

  lemma BootstrapAgrees(id1: nat, columns1: ColumnRows, id2: nat, columns2: ColumnRows)
    requires id1 != id2
    requires Recording(map[], map[], TABLE_CATALOG, Described(TABLE_ROW), columns1, 3)
    requires Recording(OwnSchema(), columns1, COLUMN_CATALOG, Described(COLUMN_ROW), columns2, 4)
    ensures Agrees(Bootstrap(), BothTables(id1, id2), columns2)
  {
    var tables1: TableRows := map[id1 := TableRow(TABLE_CATALOG, IN_MEMORY, 3)];
    AddAgrees(map[], map[], map[], TABLE_CATALOG, IN_MEMORY, Described(TABLE_ROW), id1, columns1);
    AddAgrees(OwnSchema(), tables1, columns1, COLUMN_CATALOG, IN_MEMORY, Described(COLUMN_ROW), id2, columns2);
  }

  // ----- runs

  datatype Op = Add(name: Name, typ: nat, schema: seq<Attribute>) | Remove(name: Name)

  /** An addition that either stores all its rows or throws before it stores the first one. */
  predicate Harmless(tableStore: TS.Engine, columnStore: TS.Engine, op: Op) {
    op.Add? ==>
      && op.typ < INT_LIMIT && SchemaInts(op.schema)
      && (AddOutcome(tableStore, columnStore, op.name, op.schema) == Added || |op.name| > MAX_STRING)
  }

  function Step(info: Info, op: Op): Info {
    match op
    case Add(name, typ, schema) =>
      if name in info || |name| > MAX_STRING then info else info[name := TableInfo(typ, schema)]
    case Remove(name) => info - {name}
  }

  function Run(ops: seq<Op>, n: nat): Info
    requires n <= |ops|
  {
    if n == 0 then Bootstrap() else Step(Run(ops, n - 1), ops[n - 1])
  }

  /** The tables that the operations add have columns of types that exist. */
  ghost predicate AllTyped(ops: seq<Op>) { forall i | 0 <= i < |ops| && ops[i].Add? :: Typed(ops[i].schema) }

  lemma {:induction false} TypedRunIsKnown(ops: seq<Op>, n: nat)
    requires n <= |ops| && AllTyped(ops)
    ensures KnownTypes(Run(ops, n))
  {
    if n == 0 {
      BootstrapContents();
    } else {
      TypedRunIsKnown(ops, n - 1);
      if ops[n - 1].Add? {
        TypedIff(ops[n - 1].schema);
      }
    }
  }

  /** Columns that the first `n` operations add. */
  function ColumnsOf(ops: seq<Op>, n: nat): nat
    requires n <= |ops|
  {
    if n == 0 then 0 else ColumnsOf(ops, n - 1) + if ops[n - 1].Add? then |ops[n - 1].schema| else 0
  }

  lemma {:induction false} ColumnsGrow(ops: seq<Op>, n: nat, m: nat)
    requires n <= m <= |ops|
    ensures ColumnsOf(ops, n) <= ColumnsOf(ops, m)
  {
    if n < m {
      ColumnsGrow(ops, n, m - 1);
    }
  }

  method Perform(c: SchemaCatalog, op: Op)
    requires c.Valid() && Harmless(c.tableStore, c.columnStore, op)
    requires TS.Space(c.tableStore) > 0 && TS.Space(c.columnStore) >= if op.Add? then |op.schema| else 0
    modifies c, TS.Objects(c.tableStore), TS.Objects(c.columnStore)
    ensures c.Valid() && c.info == Step(old(c.info), op)
    ensures TS.Space(c.tableStore) >= old(TS.Space(c.tableStore)) - 1
    ensures TS.Space(c.columnStore) >= old(TS.Space(c.columnStore)) - if op.Add? then |op.schema| else 0
  {
    match op
    case Add(name, typ, schema) =>
      var _ := c.AddTable(name, typ, schema);
    case Remove(name) =>
      var _ := c.RemoveTable(name);
  }

  /** The catalog tables have room for the operations from the `n`-th on. */
  ghost predicate RoomFor(c: SchemaCatalog, ops: seq<Op>, n: nat)
    requires n <= |ops|
    reads c, TS.Objects(c.tableStore), TS.Objects(c.columnStore)
  {
    TS.Space(c.tableStore) >= |ops| - n && TS.Space(c.columnStore) >= ColumnsOf(ops, |ops|) - ColumnsOf(ops, n)
  }

  method PerformNext(c: SchemaCatalog, ops: seq<Op>, n: nat)
    requires n < |ops| && c.Valid() && c.info == Run(ops, n) && RoomFor(c, ops, n)
    requires Harmless(c.tableStore, c.columnStore, ops[n])
    modifies c, TS.Objects(c.tableStore), TS.Objects(c.columnStore)
    ensures c.Valid() && c.info == Run(ops, n + 1) && RoomFor(c, ops, n + 1)
  {
    ColumnsGrow(ops, n + 1, |ops|);
    Perform(c, ops[n]);
  }

  /** Any sequence of additions and removals, as long as the catalog tables have room. */
  method PerformAll(c: SchemaCatalog, ops: seq<Op>)
    requires c.Valid() && c.info == Bootstrap()
    requires TS.Space(c.tableStore) >= |ops| && TS.Space(c.columnStore) >= ColumnsOf(ops, |ops|)
    requires forall i | 0 <= i < |ops| :: Harmless(c.tableStore, c.columnStore, ops[i])
    modifies c, TS.Objects(c.tableStore), TS.Objects(c.columnStore)
    ensures c.Valid() && c.info == Run(ops, |ops|)
  {
    for n := 0 to |ops|
      invariant c.Valid() && c.info == Run(ops, n) && RoomFor(c, ops, n)
    {
      PerformNext(c, ops, n);
    }
  }

  /** After any such sequence on a new database the cache is the map that the operations
      describe, and a reload from the stored rows gives it back exactly when all types are
      known, which they are if only types that exist have been used. */
  method RunThenReload(tableStore: TS.Engine, columnStore: TS.Engine, ops: seq<Op>)
    returns (info: Info, r: Result<Info>)
    requires TS.Objects(tableStore) !! TS.Objects(columnStore) && StoresOk(tableStore, columnStore, map[], map[])
    requires TS.Space(tableStore) >= 2 + |ops| && TS.Space(columnStore) >= 7 + ColumnsOf(ops, |ops|)
    requires forall i | 0 <= i < |ops| :: Harmless(tableStore, columnStore, ops[i])
    modifies TS.Objects(tableStore), TS.Objects(columnStore)
    ensures info == Run(ops, |ops|)
    ensures r == if KnownTypes(info) then Ok(info) else Err
    ensures AllTyped(ops) ==> r == Ok(info)
  {
    if AllTyped(ops) {
      TypedRunIsKnown(ops, |ops|);
    }
    var c := NewCatalog(tableStore, columnStore);
    PerformAll(c, ops);
    info := c.info;
    r := ReloadStored(c.tableStore, c.columnStore, c.tables, c.columns, c.info);
  }

  /** An addition whose rows fit on disk pages. */
  predicate FitsOnDisk(op: Op) {
    op.Add? ==>
      && op.typ < INT_LIMIT && SchemaInts(op.schema) && |op.name| + 10 <= DiskTable.MAX_ROW
      && forall i | 0 <= i < |op.schema| :: |op.schema[i].name| + |op.name| + 12 <= DiskTable.MAX_ROW
  }

  /** Exactly these additions are stored in full on disk. */
  lemma FitsOnDiskIff(tableStore: TS.Engine, columnStore: TS.Engine, op: Op)
    requires tableStore.OnDisk? && columnStore.OnDisk? && op.Add?
    ensures FitsOnDisk(op) <==>
              && op.typ < INT_LIMIT && SchemaInts(op.schema)
              && AddOutcome(tableStore, columnStore, op.name, op.schema) == Added
  {
    AddedOnDiskIff(tableStore, columnStore, op.name, op.schema);
  }

  /** The same on two new disk tables, which hold fewer than 2^20 rows each. */
  method RunOnDisk(ops: seq<Op>) returns (info: Info, r: Result<Info>)
    requires forall i | 0 <= i < |ops| :: FitsOnDisk(ops[i])
    requires |ops| + 3 <= DiskFile.MAX_PAGES && ColumnsOf(ops, |ops|) + 8 <= DiskFile.MAX_PAGES
    ensures info == Run(ops, |ops|)
    ensures r == if KnownTypes(info) then Ok(info) else Err
    ensures AllTyped(ops) ==> r == Ok(info)
  {
    var tables := new DiskTable.HeapTable();
    var columns := new DiskTable.HeapTable();
    var tableStore, columnStore := TS.OnDisk(tables), TS.OnDisk(columns);
    forall i | 0 <= i < |ops| ensures Harmless(tableStore, columnStore, ops[i]) {
      assert FitsOnDisk(ops[i]);
      if ops[i].Add? {
        FitsOnDiskIff(tableStore, columnStore, ops[i]);
      }
    }
    info, r := RunThenReload(tableStore, columnStore, ops);
  }
}
