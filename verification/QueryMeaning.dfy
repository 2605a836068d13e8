/** The relational meaning of SELECT: filter and project on typed rows. */
module QueryMeaning {
  import opened Bytes
  import opened Wrappers
  import opened RowCodec
  import opened Literals
  import opened Conditions
  import opened QueryPipeline

  type TypedRow = seq<Value>

  /** The rows of a table with this schema, each of which could be stored. */
  ghost predicate RowsFit(schema: Schema, rows: seq<TypedRow>) {
    forall i | 0 <= i < |rows| :: Fits(schema, rows[i]) && Encodable(rows[i])
  }

  ghost function EncodeRows(schema: Schema, rows: seq<TypedRow>): seq<seq<byte>>
    requires RowsFit(schema, rows)
  {
    if rows == [] then [] else [EncodeRow(rows[0])] + EncodeRows(schema, rows[1..])
  }

  /** Whether a row satisfies the WHERE clause, if there is one. */
  ghost function Verdict(lib: Lib, schema: Schema, where: Option<Condition>, row: TypedRow): Result<bool>
    requires |row| == |schema|
  {
    if where.None? then Ok(true) else EvalValues(lib, schema, where.value, row)
  }

  /** The condition has a truth value on every row. */
  ghost predicate Defined(lib: Lib, schema: Schema, where: Option<Condition>, rows: seq<TypedRow>)
    requires RowsFit(schema, rows)
  {
    forall i | 0 <= i < |rows| :: Verdict(lib, schema, where, rows[i]).Ok?
  }

  /** The rows that satisfy the condition, in their order. */
  ghost function Keep(lib: Lib, schema: Schema, where: Option<Condition>, rows: seq<TypedRow>): (r: seq<TypedRow>)
    requires RowsFit(schema, rows)
    ensures RowsFit(schema, r)
    ensures forall row :: row in r <==> row in rows && |row| == |schema| && Verdict(lib, schema, where, row) == Ok(true)
  {
    if rows == [] then []
    else
      var rest := Keep(lib, schema, where, rows[1..]);
      if Verdict(lib, schema, where, rows[0]) == Ok(true) then [rows[0]] + rest else rest
  }

  ghost function SelectEach(schema: Schema, fields: seq<nat>, rows: seq<TypedRow>): (r: seq<TypedRow>)
    requires RowsFit(schema, rows) && InSchema(schema, fields)
    ensures |r| == |rows| && RowsFit(Select(schema, fields), r)
    ensures forall i | 0 <= i < |r| :: r[i] == Select(rows[i], fields)
  {
    if rows == [] then [] else
      ProjectIsSelect(schema, rows[0], fields);
      [Select(rows[0], fields)] + SelectEach(schema, fields, rows[1..])
  }

  lemma {:induction false} FilterMeaning(lib: Lib, schema: Schema, c: Condition, rows: seq<TypedRow>)
    requires RowsFit(schema, rows)
    ensures FilterRows(lib, schema, c, EncodeRows(schema, rows)) ==
            if Defined(lib, schema, Some(c), rows) then Ok(EncodeRows(schema, Keep(lib, schema, Some(c), rows)))
                else Err
  {
    if rows != [] {
      var encoded := EncodeRows(schema, rows);
      assert encoded[0] == EncodeRow(rows[0]) && encoded[1..] == EncodeRows(schema, rows[1..]);
      EvalAgrees(lib, schema, c, rows[0]);
      FilterMeaning(lib, schema, c, rows[1..]);
      DefinedSplits(lib, schema, Some(c), rows);
      var rest := Keep(lib, schema, Some(c), rows[1..]);
      if Verdict(lib, schema, Some(c), rows[0]) == Ok(true) {
        assert ([rows[0]] + rest)[1..] == rest;
      }
    }
  }

  lemma DefinedSplits(lib: Lib, schema: Schema, where: Option<Condition>, rows: seq<TypedRow>)
    requires RowsFit(schema, rows) && rows != []
    ensures Defined(lib, schema, where, rows) <==>
              Verdict(lib, schema, where, rows[0]).Ok? && Defined(lib, schema, where, rows[1..])
  {
  }

  lemma {:induction false} ProjectMeaning(schema: Schema, fields: seq<nat>, rows: seq<TypedRow>)
    requires RowsFit(schema, rows) && InSchema(schema, fields)
    ensures ProjectRows(schema, fields, EncodeRows(schema, rows)) ==
            Ok(EncodeRows(Select(schema, fields), SelectEach(schema, fields, rows)))
  {
    if rows != [] {
      var encoded := EncodeRows(schema, rows);
      assert encoded[0] == EncodeRow(rows[0]) && encoded[1..] == EncodeRows(schema, rows[1..]);
      ProjectIsSelect(schema, rows[0], fields);
      ProjectMeaning(schema, fields, rows[1..]);
      var out := SelectEach(schema, fields, rows);
      assert out[1..] == SelectEach(schema, fields, rows[1..]);
    }
  }

  lemma {:induction false} KeepAll(lib: Lib, schema: Schema, rows: seq<TypedRow>)
    requires RowsFit(schema, rows)
    ensures Keep(lib, schema, None, rows) == rows
  {
    if rows != [] {
      KeepAll(lib, schema, rows[1..]);
    }
  }

  /** The relational meaning of a SELECT on a table: it fails exactly when a selected column
      does not exist or the condition has no truth value on some row; otherwise the answer is
      the encoding of the selected fields of the rows that satisfy the condition, in the
      order of the rows, under the schema of the selected fields. */
  ghost function Meaning(lib: Lib, schema: Schema, rows: seq<TypedRow>, stmt: SelectStmt): Result<Answer>
    requires RowsFit(schema, rows)
  {
    var fields := FieldsOf(schema, stmt.columns, |stmt.columns|);
    if !Defined(lib, schema, stmt.where, rows) || (!stmt.all && fields.None?) then Err
    else
      var kept := Keep(lib, schema, stmt.where, rows);
      if stmt.all then Ok(Answer(EncodeRows(schema, kept), schema))
      else
        var out := SelectEach(schema, fields.value, kept);
        Ok(Answer(EncodeRows(Select(schema, fields.value), out), Select(schema, fields.value)))
  }

  /** What the pipeline computes on the bytes of a table is this meaning. */
  lemma SelectMeaning(lib: Lib, schema: Schema, rows: seq<TypedRow>, stmt: SelectStmt)
    requires RowsFit(schema, rows)
    ensures SelectRows(lib, schema, EncodeRows(schema, rows), stmt) == Meaning(lib, schema, rows, stmt)
  {
    if stmt.where.Some? {
      FilterMeaning(lib, schema, stmt.where.value, rows);
    } else {
      KeepAll(lib, schema, rows);
    }
    var fields := FieldsOf(schema, stmt.columns, |stmt.columns|);
    if fields.Some? && Defined(lib, schema, stmt.where, rows) {
      ProjectMeaning(schema, fields.value, Keep(lib, schema, stmt.where, rows));
    }
  }

  // ----- conditions on an integer column

  /** The rows whose integer in column `i` is in the relation to `n`, in their order. */
  ghost function Related(schema: Schema, rows: seq<TypedRow>, i: nat, op: CompareOp, n: int): (r: seq<TypedRow>)
    requires RowsFit(schema, rows) && i < |schema| && schema[i].typ == TypeI32
    ensures RowsFit(schema, r)
  {
    if rows == [] then []
    else
      var rest := Related(schema, rows[1..], i, op, n);
      if Relation(op, rows[0][i].i, n) then [rows[0]] + rest else rest
  }

  lemma {:induction false} KeepRelated(lib: Lib, schema: Schema, rows: seq<TypedRow>, name: seq<byte>, i: nat,
                                       op: CompareOp, text: seq<byte>, n: int)
    requires RowsFit(schema, rows) && ColumnIndex(schema, name, 0) == Some(i) && schema[i].typ == TypeI32
    requires ParseInt(text, true) == Some(n) && InRange(I32(n))
    ensures var where := Some(Comparison(ColumnRef(name), op, Literal(text)));
            Defined(lib, schema, where, rows) && Keep(lib, schema, where, rows) == Related(schema, rows, i, op, n)
  {
    if rows != [] {
      KeepRelated(lib, schema, rows[1..], name, i, op, text, n);
      IntegerVerdict(lib, schema, name, i, op, text, n, rows[0]);
      DefinedSplits(lib, schema, Some(Comparison(ColumnRef(name), op, Literal(text))), rows);
    }
  }

  /** Selecting by a condition on an integer column never fails and yields, in order, exactly
      the rows whose integer is in that relation to the literal. */
  lemma SelectByInteger(lib: Lib, schema: Schema, rows: seq<TypedRow>, table: seq<byte>, name: seq<byte>, i: nat,
                        op: CompareOp, text: seq<byte>, n: int)
    requires RowsFit(schema, rows) && ColumnIndex(schema, name, 0) == Some(i) && schema[i].typ == TypeI32
    requires ParseInt(text, true) == Some(n) && InRange(I32(n))
    ensures var stmt := SelectStmt(table, true, [], Some(Comparison(ColumnRef(name), op, Literal(text))));
            SelectRows(lib, schema, EncodeRows(schema, rows), stmt)
                == Ok(Answer(EncodeRows(schema, Related(schema, rows, i, op, n)), schema))
  {
    KeepRelated(lib, schema, rows, name, i, op, text, n);
    SelectMeaning(lib, schema, rows, SelectStmt(table, true, [], Some(Comparison(ColumnRef(name), op, Literal(text)))));
  }
}
