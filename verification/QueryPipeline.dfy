/** SELECT as a pipeline of iterators over encoded rows, and its relational meaning.

    Exceptions are modelled by results: an operation that throws reports failure, and the
    query fails. */
module QueryPipeline {
  import opened Bytes
  import opened Wrappers
  import opened RowCodec
  import opened Conditions
  import TS = TableStorage

  datatype Table = Table(schema: Schema, engine: TS.Engine)

  datatype SelectStmt = SelectStmt(table: seq<byte>, all: bool, columns: seq<seq<byte>>, where: Option<Condition>)

  datatype Answer = Answer(rows: seq<seq<byte>>, schema: Schema)

  // ----- what the operators compute

  /** A row in front of the rest of a stream, unless the rest fails. */
  function Cons(row: seq<byte>, rest: Result<seq<seq<byte>>>): Result<seq<seq<byte>>> {
    if rest.Err? then Err else Ok([row] + rest.value)
  }

  /** The rows that satisfy the condition; one failing evaluation fails the stream. */
  function FilterRows(lib: Lib, schema: Schema, c: Condition, rows: seq<seq<byte>>): Result<seq<seq<byte>>> {
    if rows == [] then Ok([])
    else
      match EvalBytes(lib, schema, c, rows[0])
      case Err => Err
      case Ok(keep) =>
        var rest := FilterRows(lib, schema, c, rows[1..]);
        if keep then Cons(rows[0], rest) else rest
  }

  predicate InSchema(schema: Schema, fields: seq<nat>) {
    forall j | 0 <= j < |fields| :: fields[j] < |schema|
  }

  function ProjectRows(schema: Schema, fields: seq<nat>, rows: seq<seq<byte>>): Result<seq<seq<byte>>>
    requires InSchema(schema, fields)
  {
    if rows == [] then Ok([])
    else
      match Projected(schema, rows[0], fields, |fields|)
      case Err => Err
      case Ok(row) => Cons(row, ProjectRows(schema, fields, rows[1..]))
  }

  // ----- the operators

  /** Walks over the rows of a table with a cursor. */
  class FileScan {
    const cursor: TS.Cursor
    var current: Option<seq<byte>>
    /** The rows still to come, the current one first. */
    ghost var rest: seq<seq<byte>>

    /** Holds the bytes of the cursor's current row. */
    ghost predicate Valid()
      reads this, TS.Moving(cursor)
    {
      && this != TS.Moving(cursor) && TS.CursorOk(cursor)
      && rest == TS.BytesOf(TS.Rest(cursor)) && (TS.AtEnd(cursor) <==> rest == [])
      && current == if rest == [] then None else Some(rest[0])
    }

    constructor (c: TS.Cursor)
      requires TS.CursorOk(c)
      ensures cursor == c && Valid() && fresh(this) && rest == TS.BytesOf(TS.Rest(c))
    {
      cursor, current := c, None;
      new;
      LoadCurrent();
    }

    method LoadCurrent()
      requires this != TS.Moving(cursor) && TS.CursorOk(cursor)
      modifies this
      ensures Valid() && rest == TS.BytesOf(old(TS.Rest(cursor)))
    {
      rest := TS.BytesOf(TS.Rest(cursor));
      if TS.AtEnd(cursor) {
        TS.NothingLeft(cursor);
        current := None;
        return;
      }
      var row := TS.Current(cursor);
      current := Some(row.1);
    }

    method Next()
      requires Valid() && current.Some?
      modifies this, TS.Moving(cursor)
      ensures Valid() && old(rest) == [old(current).value] + rest
    {
      BytesSplit(TS.Rest(cursor));
      TS.Next(cursor);
      LoadCurrent();
    }
  }

  lemma BytesSplit(rows: seq<TS.Row>)
    requires rows != []
    ensures TS.BytesOf(rows) == [rows[0].1] + TS.BytesOf(rows[1..])
  {
  }

  class Selection {
    const lib: Lib
    const src: FileScan
    const schema: Schema
    const condition: Condition
    var current: Option<seq<byte>>

    ghost predicate Valid()
      reads this, src, TS.Moving(src.cursor)
    {
      && this != TS.Moving(src.cursor) && src.Valid() && current == src.current
      && (current.Some? ==> EvalBytes(lib, schema, condition, current.value) == Ok(true))
    }

    /** What draining this iterator yields. */
    ghost function Rest(): Result<seq<seq<byte>>>
      reads src
    {
      FilterRows(lib, schema, condition, src.rest)
    }

    /** `FindNextMatch` follows at once. */
    constructor (lib: Lib, src: FileScan, schema: Schema, condition: Condition)
      ensures this.lib == lib && this.src == src && this.schema == schema && this.condition == condition && fresh(this)
    {
      this.lib, this.src, this.schema, this.condition := lib, src, schema, condition;
      current := None;
    }

    /** Advances the input to the next row that satisfies the condition. */
    method FindNextMatch() returns (ok: bool)
      requires this != TS.Moving(src.cursor) && src.Valid()
      modifies this, src, TS.Moving(src.cursor)
      ensures ok ==> Valid() && Rest() == old(Rest()) && |src.rest| <= old(|src.rest|)
      ensures !ok ==> old(Rest()) == Err
    {
      while src.current.Some?
        invariant src.Valid() && Rest() == old(Rest()) && |src.rest| <= old(|src.rest|)
        decreases |src.rest|
      {
        var keep := EvalBytes(lib, schema, condition, src.current.value);
        if keep.Err? {
          return false;
        }
        if keep.value {
          current := src.current;
          return true;
        }
        src.Next();
      }
      current := None;
      return true;
    }

    method Next() returns (ok: bool)
      requires Valid() && current.Some?
      modifies this, src, TS.Moving(src.cursor)
      ensures ok ==> Valid() && old(Rest()) == Cons(old(current).value, Rest()) && |src.rest| < old(|src.rest|)
      ensures !ok ==> old(Rest()) == Err
    {
      src.Next();
      ok := FindNextMatch();
    }
  }

  /** The input of a projection: the scan itself, or a selection on it. */
  datatype Source = FromScan(scan: FileScan) | FromSelection(selection: Selection)

  /** The objects of a source. */
  ghost function Objects(s: Source): set<object> {
    match s
    case FromScan(scan) => {scan, TS.Moving(scan.cursor)}
    case FromSelection(sel) => {sel, sel.src, TS.Moving(sel.src.cursor)}
  }

  ghost predicate SourceOk(s: Source)
    reads Objects(s)
  {
    match s
    case FromScan(scan) => scan.Valid()
    case FromSelection(sel) => sel.Valid()
  }

  ghost function SourceRest(s: Source): Result<seq<seq<byte>>>
    reads Objects(s)
  {
    match s
    case FromScan(scan) => Ok(scan.rest)
    case FromSelection(sel) => sel.Rest()
  }

  /** Rows of the table that have not been read yet. */
  ghost function Unread(s: Source): nat
    reads Objects(s)
  {
    match s
    case FromScan(scan) => |scan.rest|
    case FromSelection(sel) => |sel.src.rest|
  }

  function SourceCurrent(s: Source): Option<seq<byte>>
    reads Objects(s)
  {
    match s
    case FromScan(scan) => scan.current
    case FromSelection(sel) => sel.current
  }

  method SourceNext(s: Source) returns (ok: bool)
    requires SourceOk(s) && SourceCurrent(s).Some?
    modifies Objects(s)
    ensures ok ==> SourceOk(s) && Unread(s) < old(Unread(s))
    ensures ok ==> old(SourceRest(s)) == Cons(old(SourceCurrent(s)).value, SourceRest(s))
    ensures !ok ==> old(SourceRest(s)) == Err
  {
    match s
    case FromScan(scan) =>
      scan.Next();
      ok := true;
    case FromSelection(sel) =>
      ok := sel.Next();
  }

  /** Collects everything an input yields. */
  method DrainSource(s: Source) returns (r: Result<seq<seq<byte>>>)
    requires SourceOk(s)
    modifies Objects(s)
    ensures r == old(SourceRest(s))
  {
    var rows := [];
    BehindNothing(SourceRest(s));
    while SourceCurrent(s).Some?
      invariant SourceOk(s) && old(SourceRest(s)) == Behind(rows, SourceRest(s))
      decreases Unread(s)
    {
      var row := SourceCurrent(s).value;
      var ok := SourceNext(s);
      if !ok {
        return Err;
      }
      BehindNext(rows, row, SourceRest(s));
      rows := rows + [row];
    }
    assert rows + [] == rows;
    r := Ok(rows);
  }

  lemma BehindNothing(rest: Result<seq<seq<byte>>>)
    ensures Behind([], rest) == rest
  {
    if rest.Ok? { assert [] + rest.value == rest.value; }
  }

  lemma BehindNext(rows: seq<seq<byte>>, row: seq<byte>, rest: Result<seq<seq<byte>>>)
    ensures Behind(rows, Cons(row, rest)) == Behind(rows + [row], rest)
  {
    if rest.Ok? { assert rows + ([row] + rest.value) == (rows + [row]) + rest.value; }
  }

  /** The rows read so far, and then the rest of a stream. */
  ghost function Behind(rows: seq<seq<byte>>, rest: Result<seq<seq<byte>>>): Result<seq<seq<byte>>> {
    if rest.Err? then Err else Ok(rows + rest.value)
  }

  /** Projects every row of its input; its output schema is that of the selected fields. */
  class Projection {
    const src: Source
    const schema: Schema
    const fields: seq<nat>
    const outputSchema: Schema
    var current: Option<seq<byte>>

    ghost predicate Valid()
      reads this, Objects(src)
    {
      && this !in Objects(src) && SourceOk(src) && InSchema(schema, fields) && outputSchema == Select(schema, fields)
      && ProjectedHead(schema, fields, SourceCurrent(src)) == Ok(current)
    }

    /** What draining this iterator yields: a failing input or projection fails it. */
    ghost function Rest(): Result<seq<seq<byte>>>
      requires InSchema(schema, fields)
      reads this, Objects(src)
    {
      if SourceRest(src).Err? then Err else ProjectRows(schema, fields, SourceRest(src).value)
    }

    /** `LoadCurrent` follows at once. */
    constructor (src: Source, schema: Schema, fields: seq<nat>)
      requires InSchema(schema, fields)
      ensures this.src == src && this.schema == schema && this.fields == fields
              && outputSchema == Select(schema, fields)
      ensures fresh(this)
    {
      this.src, this.schema, this.fields := src, schema, fields;
      var output := [];
      for j := 0 to |fields|
        invariant output == Select(schema, fields)[..j]
      {
        output := output + [schema[fields[j]]];
      }
      outputSchema := output;
      current := None;
    }

    /** Projects the current row of the input, as `RowCodec.Project` does field by field. */
    method LoadCurrent() returns (ok: bool)
      requires this !in Objects(src) && SourceOk(src) && InSchema(schema, fields)
      modifies this`current
      ensures SourceOk(src) && SourceCurrent(src) == old(SourceCurrent(src))
      ensures SourceRest(src) == old(SourceRest(src)) && Unread(src) == old(Unread(src))
      ensures ok ==> ProjectedHead(schema, fields, SourceCurrent(src)) == Ok(current)
      ensures !ok ==> Rest() == Err
    {
      CurrentIsHead(src);
      ProjectHead(schema, fields, SourceCurrent(src), SourceRest(src));
      var row := ProjectedHead(schema, fields, SourceCurrent(src));
      ok := row.Ok?;
      if ok {
        current := row.value;
      }
    }

    method Next() returns (ok: bool)
      requires Valid() && current.Some?
      modifies this, Objects(src)
      ensures ok ==> Valid() && old(Rest()) == Cons(old(current).value, Rest()) && Unread(src) < old(Unread(src))
      ensures !ok ==> old(Rest()) == Err
    {
      ghost var row := SourceCurrent(src).value;
      ok := SourceNext(src);
      if ok {
        ProjectNext(schema, fields, row, SourceRest(src));
        ok := LoadCurrent();
      }
    }
  }

  /** A row that cannot be projected fails the stream. */
  lemma ProjectHead(schema: Schema, fields: seq<nat>, head: Option<seq<byte>>, rest: Result<seq<seq<byte>>>)
    requires InSchema(schema, fields) && IsHead(head, rest)
    ensures ProjectedHead(schema, fields, head).Err? && rest.Ok? ==> ProjectRows(schema, fields, rest.value) == Err
  {
  }

  /** The projection of the current row, if there is one. */
  function ProjectedHead(schema: Schema, fields: seq<nat>, head: Option<seq<byte>>): Result<Option<seq<byte>>>
    requires InSchema(schema, fields)
  {
    if head.None? then Ok(None)
    else
      match Projected(schema, head.value, fields, |fields|)
      case Ok(row) => Ok(Some(row))
      case Err => Err
  }

  /** `head` is the first row of a stream, if the stream has one. */
  ghost predicate IsHead(head: Option<seq<byte>>, rest: Result<seq<seq<byte>>>) {
    match head
    case None => rest == Ok([])
    case Some(row) => rest.Ok? ==> rest.value != [] && rest.value[0] == row
  }

  /** The current row is the first of the rest. */
  lemma CurrentIsHead(s: Source)
    requires SourceOk(s)
    ensures IsHead(SourceCurrent(s), SourceRest(s))
  {
  }

  lemma ProjectNext(schema: Schema, fields: seq<nat>, row: seq<byte>, rest: Result<seq<seq<byte>>>)
    requires InSchema(schema, fields) && Projected(schema, row, fields, |fields|).Ok?
    ensures rest.Ok? ==> ProjectRows(schema, fields, [row] + rest.value)
                         == Cons(Projected(schema, row, fields, |fields|).value,
                             ProjectRows(schema, fields, rest.value))
  {
  }

  method DrainProjection(p: Projection) returns (r: Result<seq<seq<byte>>>)
    requires p.Valid()
    modifies p, Objects(p.src)
    ensures r == old(p.Rest())
  {
    var rows := [];
    BehindNothing(p.Rest());
    while p.current.Some?
      invariant p.Valid() && old(p.Rest()) == Behind(rows, p.Rest())
      decreases Unread(p.src)
    {
      var row := p.current.value;
      var ok := p.Next();
      if !ok {
        return Err;
      }
      BehindNext(rows, row, p.Rest());
      rows := rows + [row];
    }
    assert rows + [] == rows;
    r := Ok(rows);
  }

  // ----- planning and execution

  /** Positions of the named columns, or nothing if one of them does not exist. */
  function FieldsOf(schema: Schema, names: seq<seq<byte>>, n: nat): (r: Option<seq<nat>>)
    requires n <= |names|
    ensures r.Some? ==> |r.value| == n && InSchema(schema, r.value)
    ensures r.Some? ==> forall j | 0 <= j < n :: ColumnIndex(schema, names[j], 0) == Some(r.value[j])
    ensures r.None? ==> exists j | 0 <= j < n :: ColumnIndex(schema, names[j], 0).None?
  {
    if n == 0 then Some([])
    else
      match FieldsOf(schema, names, n - 1)
      case None => None
      case Some(fields) =>
        match ColumnIndex(schema, names[n - 1], 0)
        case None => None
        case Some(i) => Some(fields + [i])
  }

  /** The optimizer's nested loops over column names and schema. */
  method ResolveColumns(schema: Schema, names: seq<seq<byte>>) returns (r: Option<seq<nat>>)
    ensures r == FieldsOf(schema, names, |names|)
  {
    var fields := [];
    for j := 0 to |names|
      invariant FieldsOf(schema, names, j) == Some(fields)
    {
      var i := FindColumn(schema, names[j]);
      if i.None? {
        MissingColumn(schema, names, j + 1, |names|);
        return None;
      }
      fields := fields + [i.value];
    }
    r := Some(fields);
  }

  method FindColumn(schema: Schema, name: seq<byte>) returns (r: Option<nat>)
    ensures r == ColumnIndex(schema, name, 0)
  {
    var i := 0;
    while i < |schema|
      invariant i <= |schema| && ColumnIndex(schema, name, 0) == ColumnIndex(schema, name, i)
    {
      if schema[i].name == name {
        return Some(i);
      }
      i := i + 1;
    }
    return None;
  }

  lemma MissingColumn(schema: Schema, names: seq<seq<byte>>, i: nat, n: nat)
    requires i <= n <= |names| && FieldsOf(schema, names, i).None?
    ensures FieldsOf(schema, names, n).None?
  {
  }

  /** The executor's own construction of the result schema, from the column names. */
  method ResultSchema(schema: Schema, names: seq<seq<byte>>) returns (r: Schema)
    ensures FieldsOf(schema, names, |names|).Some? ==> r == Select(schema, FieldsOf(schema, names, |names|).value)
  {
    r := [];
    for j := 0 to |names|
      invariant FieldsOf(schema, names, j).Some? ==> r == Select(schema, FieldsOf(schema, names, j).value)
    {
      var i := FindColumn(schema, names[j]);
      if i.Some? {
        r := r + [schema[i.value]];
      }
    }
  }

  /** What a SELECT means on the rows of a table. */
  function SelectRows(lib: Lib, schema: Schema, rows: seq<seq<byte>>, stmt: SelectStmt): Result<Answer> {
    ProjectAnswer(schema, Filtered(lib, schema, rows, stmt.where), stmt)
  }

  function Filtered(lib: Lib, schema: Schema, rows: seq<seq<byte>>, where: Option<Condition>): Result<seq<seq<byte>>> {
    if where.Some? then FilterRows(lib, schema, where.value, rows) else Ok(rows)
  }

  function ProjectAnswer(schema: Schema, rows: Result<seq<seq<byte>>>, stmt: SelectStmt): Result<Answer> {
    if rows.Err? then Err
    else if stmt.all then Ok(Answer(rows.value, schema))
    else
      match FieldsOf(schema, stmt.columns, |stmt.columns|)
      case None => Err
      case Some(fields) =>
        match ProjectRows(schema, fields, rows.value)
        case Err => Err
        case Ok(out) => Ok(Answer(out, Select(schema, fields)))
  }

  /** The scan at the bottom of a plan. */
  method PlanScan(engine: TS.Engine) returns (scan: FileScan)
    requires TS.Ok(engine)
    ensures scan.Valid() && scan.rest == TS.BytesOf(TS.ScanOf(engine))
    ensures fresh(scan) && fresh(TS.Moving(scan.cursor))
  {
    var cursor := TS.Begin(engine);
    scan := new FileScan(cursor);
  }

  /** ... with a selection on top if there is a condition. */
  method PlanSource(lib: Lib, scan: FileScan, schema: Schema, where: Option<Condition>) returns (src: Option<Source>)
    requires scan.Valid()
    modifies scan, TS.Moving(scan.cursor)
    ensures src.Some? ==> SourceOk(src.value) && fresh(Objects(src.value) - {scan, TS.Moving(scan.cursor)})
    ensures var all := Filtered(lib, schema, old(scan.rest), where);
            if src.Some? then SourceRest(src.value) == all else all == Err
  {
    if where.None? {
      return Some(FromScan(scan));
    }
    var sel := new Selection(lib, scan, schema, where.value);
    var ok := sel.FindNextMatch();
    src := if ok then Some(FromSelection(sel)) else None;
  }

  /** The rest of the plan, a projection unless all columns are selected, and the collection
      of its rows. */
  method RunPlan(src: Source, schema: Schema, stmt: SelectStmt) returns (r: Result<Answer>)
    requires SourceOk(src)
    modifies Objects(src)
    ensures r == ProjectAnswer(schema, old(SourceRest(src)), stmt)
  {
    if stmt.all {
      var rows := DrainSource(src);
      return if rows.Err? then Err else Ok(Answer(rows.value, schema));
    }
    var fields := ResolveColumns(schema, stmt.columns);
    if fields.None? {
      return Err;
    }
    var rows := RunProjection(src, schema, fields.value);
    if rows.Err? {
      return Err;
    }
    var names := ResultSchema(schema, stmt.columns);
    r := Ok(Answer(rows.value, names));
  }

  method RunProjection(src: Source, schema: Schema, fields: seq<nat>) returns (r: Result<seq<seq<byte>>>)
    requires SourceOk(src) && InSchema(schema, fields)
    modifies Objects(src)
    ensures var rows := old(SourceRest(src)); r == if rows.Err? then Err else ProjectRows(schema, fields, rows.value)
  {
    var proj := new Projection(src, schema, fields);
    var ok := proj.LoadCurrent();
    if !ok {
      return Err;
    }
    r := DrainProjection(proj);
  }

  /** A SELECT on one table, whose scan yields `rows`. */
  method SelectFrom(lib: Lib, t: Table, stmt: SelectStmt, ghost rows: seq<seq<byte>>) returns (r: Result<Answer>)
    requires TS.Ok(t.engine) && rows == TS.BytesOf(TS.ScanOf(t.engine))
    ensures r == SelectRows(lib, t.schema, rows, stmt)
  {
    var scan := PlanScan(t.engine);
    assert scan.rest == rows;
    r := SelectScanned(lib, scan, t.schema, stmt);
  }

  method SelectScanned(lib: Lib, scan: FileScan, schema: Schema, stmt: SelectStmt) returns (r: Result<Answer>)
    requires scan.Valid()
    modifies scan, TS.Moving(scan.cursor)
    ensures r == SelectRows(lib, schema, old(scan.rest), stmt)
  {
    var src := PlanSource(lib, scan, schema, stmt.where);
    if src.None? {
      return Err;
    }
    r := RunPlan(src.value, schema, stmt);
  }

  /** A SELECT statement: plan assembly and row collection. */
  method ExecuteSelect(lib: Lib, tables: map<seq<byte>, Table>, stmt: SelectStmt) returns (r: Result<Answer>)
    requires stmt.table in tables ==> TS.Ok(tables[stmt.table].engine)
    ensures stmt.table !in tables ==> r == Err
    ensures stmt.table in tables ==>
              var t := tables[stmt.table];
              r == SelectRows(lib, t.schema, TS.BytesOf(TS.ScanOf(t.engine)), stmt)
  {
    if stmt.table !in tables {
      return Err;
    }
    var t := tables[stmt.table];
    r := SelectFrom(lib, t, stmt, TS.BytesOf(TS.ScanOf(t.engine)));
  }
}
