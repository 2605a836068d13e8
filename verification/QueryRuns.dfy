/** A SELECT on a table that has been filled by inserts, updates and deletes of typed rows. */
module QueryRuns {
  import opened Bytes
  import opened Wrappers
  import opened RowCodec
  import opened Conditions
  import opened QueryPipeline
  import opened QueryMeaning
  import DiskTable
  import DiskFile
  import EphemeralTable
  import TS = TableStorage
  import Sim = TableSimulation

  /** Statements name the rows they act on by insertion number. */
  datatype Op = Insert(values: TypedRow) | Delete(h: nat) | Update(h: nat, values: TypedRow)

  /** The rows that a table with this schema stores; all others are refused. */
  ghost predicate Storable(schema: Schema, values: TypedRow) { Fits(schema, values) && Encodable(values) }

  datatype Model = Model(rows: map<int, TypedRow>, next: nat)

  ghost function Step(schema: Schema, m: Model, op: Op): Model {
    match op
    case Insert(values) => if Storable(schema, values) then Model(m.rows[m.next := values], m.next + 1) else m
    case Delete(h) => m.(rows := m.rows - {h})
    case Update(h, values) =>
      if h in m.rows && Storable(schema, values) then Model((m.rows - {h})[m.next := values], m.next + 1) else m
  }

  ghost function Run(schema: Schema, ops: seq<Op>, n: nat): Model
    requires n <= |ops|
  {
    if n == 0 then Model(map[], 0) else Step(schema, Run(schema, ops, n - 1), ops[n - 1])
  }

  // ----- typed rows as bytes

  ghost predicate EncodesAt(schema: Schema, values: TypedRow, row: seq<byte>) {
    Storable(schema, values) && row == EncodeRow(values)
  }

  /** The byte rows `b` are the encodings of the typed rows `m`. */
  ghost predicate Encodes(schema: Schema, m: Model, b: Sim.Model) {
    && b.next == m.next && b.rows.Keys == m.rows.Keys
    && forall h {:trigger EncodesAt(schema, m.rows[h], b.rows[h])} | h in m.rows ::
        EncodesAt(schema, m.rows[h], b.rows[h])
  }

  lemma EncodesStored(schema: Schema, m: Model, b: Sim.Model, values: TypedRow)
    requires Encodes(schema, m, b) && Storable(schema, values)
    ensures Encodes(schema, Step(schema, m, Insert(values)), Sim.Step(b, Sim.Insert(EncodeRow(values))))
  {
    var m', b' := Step(schema, m, Insert(values)), Sim.Step(b, Sim.Insert(EncodeRow(values)));
    forall h | h in m'.rows ensures EncodesAt(schema, m'.rows[h], b'.rows[h]) {
      if h != m.next { assert EncodesAt(schema, m.rows[h], b.rows[h]); }
    }
  }

  lemma EncodesDeleted(schema: Schema, m: Model, b: Sim.Model, h: nat)
    requires Encodes(schema, m, b)
    ensures Encodes(schema, Step(schema, m, Delete(h)), Sim.Step(b, Sim.Delete(h)))
  {
    var m', b' := Step(schema, m, Delete(h)), Sim.Step(b, Sim.Delete(h));
    forall g | g in m'.rows ensures EncodesAt(schema, m'.rows[g], b'.rows[g]) {
      assert EncodesAt(schema, m.rows[g], b.rows[g]);
    }
  }

  lemma EncodesUpdated(schema: Schema, m: Model, b: Sim.Model, h: nat, values: TypedRow)
    requires Encodes(schema, m, b) && Storable(schema, values)
    ensures Encodes(schema, Step(schema, m, Update(h, values)), Sim.Step(b, Sim.Update(h, EncodeRow(values))))
  {
    if h in m.rows {
      EncodesDeleted(schema, m, b, h);
      EncodesStored(schema, Step(schema, m, Delete(h)), Sim.Step(b, Sim.Delete(h)), values);
    }
  }

  /** The table handle's part of a statement: typed rows are built into bytes, and a row that
      does not fit the schema or cannot be encoded is refused before it reaches the table. */
  method Build(schema: Schema, op: Op, ghost m: Model, ghost b: Sim.Model) returns (r: Option<Sim.Op>)
    requires Encodes(schema, m, b) && (!op.Delete? ==> forall i | 0 <= i < |op.values| :: InRange(op.values[i]))
    ensures r.None? ==> Step(schema, m, op) == m
    ensures r.Some? ==> Encodes(schema, Step(schema, m, op), Sim.Step(b, r.value))
    ensures r.Some? && !op.Delete? ==>
              Storable(schema, op.values) && !r.value.Delete? && r.value.row == EncodeRow(op.values)
    ensures op.Delete? ==> r == Some(Sim.Delete(op.h))
  {
    if op.Delete? {
      EncodesDeleted(schema, m, b, op.h);
      return Some(Sim.Delete(op.h));
    }
    var row := BuildRow(schema, op.values);
    if row.Err? {
      return None;
    }
    if op.Insert? {
      EncodesStored(schema, m, b, op.values);
      r := Some(Sim.Insert(row.value));
    } else {
      EncodesUpdated(schema, m, b, op.h, op.values);
      r := Some(Sim.Update(op.h, row.value));
    }
  }

  /** The values of a statement exist, and the row they make fits on a page. */
  ghost predicate Small(schema: Schema, op: Op) {
    op.Delete? || ((forall i | 0 <= i < |op.values| :: InRange(op.values[i]))
                   && (Storable(schema, op.values) ==> |EncodeRow(op.values)| <= DiskTable.MAX_ROW))
  }

  lemma RunLonger(ops: seq<Sim.Op>, op: Sim.Op)
    ensures Sim.Run(ops + [op]) == Sim.Step(Sim.Run(ops), op)
  {
    assert (ops + [op])[..|ops|] == ops;
  }

  method BuildAll(schema: Schema, ops: seq<Op>) returns (bops: seq<Sim.Op>)
    requires forall i | 0 <= i < |ops| :: Small(schema, ops[i])
    ensures |bops| <= |ops| && Encodes(schema, Run(schema, ops, |ops|), Sim.Run(bops))
    ensures forall i | 0 <= i < |bops| :: Sim.SmallRow(bops[i])
  {
    bops := [];
    for n := 0 to |ops|
      invariant |bops| <= n && Encodes(schema, Run(schema, ops, n), Sim.Run(bops))
      invariant forall i | 0 <= i < |bops| :: Sim.SmallRow(bops[i])
    {
      assert Small(schema, ops[n]);
      ghost var m, b := Run(schema, ops, n), Sim.Run(bops);
      assert Run(schema, ops, n + 1) == Step(schema, m, ops[n]);
      var op := Build(schema, ops[n], m, b);
      if op.Some? {
        RunLonger(bops, op.value);
        bops := bops + [op.value];
      }
    }
  }

  // ----- scans as typed rows

  /** The rows from insertion number `k` up to `n`, oldest first. */
  ghost function RowsFrom(rows: map<int, TypedRow>, k: nat, n: nat): seq<TypedRow>
    decreases n - k, rows
  {
    if k >= n then [] else (if k in rows then [rows[k]] else []) + RowsFrom(rows, k + 1, n)
  }

  lemma {:induction false} RowsFromFit(schema: Schema, m: Model, b: Sim.Model, k: nat, n: nat)
    requires Encodes(schema, m, b)
    ensures RowsFit(schema, RowsFrom(m.rows, k, n))
    decreases n - k
  {
    if k < n {
      RowsFromFit(schema, m, b, k + 1, n);
      if k in m.rows { assert EncodesAt(schema, m.rows[k], b.rows[k]); }
    }
  }

  lemma EncodeCons(schema: Schema, row: TypedRow, rest: seq<TypedRow>)
    requires Storable(schema, row) && RowsFit(schema, rest)
    ensures RowsFit(schema, [row] + rest)
    ensures EncodeRows(schema, [row] + rest) == [EncodeRow(row)] + EncodeRows(schema, rest)
  {
    assert ([row] + rest)[1..] == rest;
  }

  lemma BytesCons(row: TS.Row, rest: seq<TS.Row>)
    ensures TS.BytesOf([row] + rest) == [row.1] + TS.BytesOf(rest)
  {
  }

  /** The scan of the in-memory table is the encoding of the rows in insertion order. */
  lemma {:induction false} MemoryScan(schema: Schema, m: Model, b: Sim.Model, k: nat, n: nat)
    requires Encodes(schema, m, b)
    ensures RowsFit(schema, RowsFrom(m.rows, k, n))
    ensures TS.BytesOf(EphemeralTable.RowsFrom(b.rows, k, n)) == EncodeRows(schema, RowsFrom(m.rows, k, n))
    decreases n - k
  {
    RowsFromFit(schema, m, b, k, n);
    if k < n {
      MemoryScan(schema, m, b, k + 1, n);
      var rest, rows := RowsFrom(m.rows, k + 1, n), EphemeralTable.RowsFrom(b.rows, k + 1, n);
      if k in m.rows {
        assert EncodesAt(schema, m.rows[k], b.rows[k]);
        EncodeCons(schema, m.rows[k], rest);
        BytesCons((k, b.rows[k]), rows);
      } else {
        assert [] + rest == rest && [] + rows == rows;
      }
    }
  }

  lemma {:induction false} EncodeRowsAt(schema: Schema, rows: seq<TypedRow>, i: nat)
    requires RowsFit(schema, rows) && i < |rows|
    ensures |EncodeRows(schema, rows)| == |rows| && EncodeRows(schema, rows)[i] == EncodeRow(rows[i])
  {
    if i > 0 {
      EncodeRowsAt(schema, rows[1..], i - 1);
    } else if |rows| > 1 {
      EncodeRowsAt(schema, rows[1..], 0);
    }
  }

  /** Rows of one schema that have the same bytes are the same. */
  lemma EncodeRowInjective(schema: Schema, a: TypedRow, b: TypedRow)
    requires Storable(schema, a) && Storable(schema, b) && EncodeRow(a) == EncodeRow(b)
    ensures a == b
  {
    forall i | 0 <= i < |a| ensures a[i] == b[i] {
      RowRoundTrip(schema, a, i);
      RowRoundTrip(schema, b, i);
    }
  }

  /** Byte strings that encode rows of `among` encode a list of rows. */
  lemma {:induction false} Decoded(schema: Schema, bytes: seq<seq<byte>>, among: seq<TypedRow>)
    returns (rows: seq<TypedRow>)
    requires RowsFit(schema, among) && forall i | 0 <= i < |bytes| :: bytes[i] in EncodeRows(schema, among)
    ensures RowsFit(schema, rows) && EncodeRows(schema, rows) == bytes
  {
    if bytes == [] {
      rows := [];
    } else {
      var i :| 0 <= i < |EncodeRows(schema, among)| && EncodeRows(schema, among)[i] == bytes[0];
      EncodedCount(schema, among);
      EncodeRowsAt(schema, among, i);
      var rest := Decoded(schema, bytes[1..], among);
      rows := [among[i]] + rest;
      assert rows[1..] == rest && bytes == [bytes[0]] + bytes[1..];
    }
  }

  lemma {:induction false} EncodedCount(schema: Schema, rows: seq<TypedRow>)
    requires RowsFit(schema, rows)
    ensures |EncodeRows(schema, rows)| == |rows|
  {
    if rows != [] {
      EncodedCount(schema, rows[1..]);
    }
  }

  lemma BagWithout<T>(s: seq<T>, j: nat)
    requires j < |s|
    ensures multiset(s) == multiset(s[..j] + s[j + 1..]) + multiset{s[j]}
  {
    assert s == s[..j] + [s[j]] + s[j + 1..];
  }

  lemma BagsWithout<T>(s: seq<T>, r: seq<T>, j: nat)
    requires s != [] && j < |r| && r[j] == s[0] && multiset(s) == multiset(r)
    ensures multiset(s[..0] + s[1..]) == multiset(r[..j] + r[j + 1..])
  {
    BagWithout(s, 0);
    BagWithout(r, j);
    var x := multiset{s[0]};
    assert multiset(s[..0] + s[1..]) == multiset(s) - x && multiset(r[..j] + r[j + 1..]) == multiset(r) - x;
  }

  lemma BagsWith<T>(s: seq<T>, r: seq<T>, j: nat)
    requires s != [] && j < |r| && r[j] == s[0] && multiset(s[..0] + s[1..]) == multiset(r[..j] + r[j + 1..])
    ensures multiset(s) == multiset(r)
  {
    BagWithout(s, 0);
    BagWithout(r, j);
  }

  lemma EncodeWithout(schema: Schema, rows: seq<TypedRow>, j: nat)
    requires RowsFit(schema, rows) && j < |rows|
    ensures var rest := rows[..j] + rows[j + 1..];
            && RowsFit(schema, rest) && |EncodeRows(schema, rows)| == |rows|
            && EncodeRows(schema, rest) == EncodeRows(schema, rows)[..j] + EncodeRows(schema, rows)[j + 1..]
  {
    var rest := rows[..j] + rows[j + 1..];
    EncodedCount(schema, rows);
    forall i | 0 <= i < |rest| ensures rest[i] == rows[if i < j then i else i + 1] { }
    EncodedCount(schema, rest);
    forall i | 0 <= i < |rest|
      ensures EncodeRows(schema, rest)[i] == EncodeRows(schema, rows)[if i < j then i else i + 1]
    {
      EncodeRowsAt(schema, rest, i);
      EncodeRowsAt(schema, rows, if i < j then i else i + 1);
    }
  }

  /** The first row of `a` also occurs in `b`; without it the encodings still agree. */
  lemma DropFirst(schema: Schema, a: seq<TypedRow>, b: seq<TypedRow>) returns (j: nat)
    requires RowsFit(schema, a) && RowsFit(schema, b) && a != []
    requires multiset(EncodeRows(schema, a)) == multiset(EncodeRows(schema, b))
    ensures j < |b| && b[j] == a[0] && RowsFit(schema, a[..0] + a[1..]) && RowsFit(schema, b[..j] + b[j + 1..])
    ensures multiset(EncodeRows(schema, a[..0] + a[1..])) == multiset(EncodeRows(schema, b[..j] + b[j + 1..]))
  {
    var ea, eb := EncodeRows(schema, a), EncodeRows(schema, b);
    EncodedCount(schema, a);
    EncodedCount(schema, b);
    assert ea[0] in multiset(eb);
    j :| 0 <= j < |eb| && eb[j] == ea[0];
    EncodeRowsAt(schema, a, 0);
    EncodeRowsAt(schema, b, j);
    EncodeRowInjective(schema, a[0], b[j]);
    EncodeWithout(schema, a, 0);
    EncodeWithout(schema, b, j);
    BagsWithout(ea, eb, j);
  }

  /** Lists of rows with the same bag of encodings are the same bag. */
  lemma {:induction false} SameEncodingsSameRows(schema: Schema, a: seq<TypedRow>, b: seq<TypedRow>)
    requires RowsFit(schema, a) && RowsFit(schema, b)
    requires multiset(EncodeRows(schema, a)) == multiset(EncodeRows(schema, b))
    ensures multiset(a) == multiset(b)
    decreases |a|
  {
    if a != [] {
      var j := DropFirst(schema, a, b);
      SameEncodingsSameRows(schema, a[..0] + a[1..], b[..j] + b[j + 1..]);
      BagsWith(a, b, j);
    } else {
      EncodedCount(schema, b);
      assert |multiset(EncodeRows(schema, b))| == |b|;
    }
  }

  /** `r` is the answer of the statement on the rows in some order. */
  ghost predicate AnswersInSomeOrder(lib: Lib, schema: Schema, rows: seq<TypedRow>, stmt: SelectStmt,
                                     r: Result<Answer>) {
    exists order: seq<TypedRow> ::
      RowsFit(schema, order) && multiset(order) == multiset(rows) && r == Meaning(lib, schema, order, stmt)
  }

  /** The rows of a table after a run, in insertion order. */
  ghost function Stored(schema: Schema, ops: seq<Op>): seq<TypedRow> {
    RowsFrom(Run(schema, ops, |ops|).rows, 0, EphemeralTable.IDS)
  }

  lemma ScanAnswers(lib: Lib, schema: Schema, m: Model, b: Sim.Model, scan: seq<seq<byte>>, k: nat, n: nat,
                    stmt: SelectStmt)
    requires Encodes(schema, m, b) && multiset(scan) == multiset(TS.BytesOf(EphemeralTable.RowsFrom(b.rows, k, n)))
    ensures AnswersInSomeOrder(lib, schema, RowsFrom(m.rows, k, n), stmt, SelectRows(lib, schema, scan, stmt))
  {
    var rows := RowsFrom(m.rows, k, n);
    MemoryScan(schema, m, b, k, n);
    forall i | 0 <= i < |scan| ensures scan[i] in EncodeRows(schema, rows) {
      assert scan[i] in multiset(scan);
      assert scan[i] in multiset(EncodeRows(schema, rows));
    }
    var order := Decoded(schema, scan, rows);
    SameEncodingsSameRows(schema, order, rows);
    SelectMeaning(lib, schema, order, stmt);
  }

  /** Any typed statements on a new table of either engine, followed by a SELECT: the answer is
      the relational meaning of the SELECT on the rows that are left, in insertion order for
      a table in memory and in some order for one on disk. */
  method RunThenSelect(lib: Lib, schema: Schema, ops: seq<Op>, stmt: SelectStmt)
    returns (onDisk: Result<Answer>, inMemory: Result<Answer>)
    requires |ops| + 1 < DiskFile.MAX_PAGES && forall i | 0 <= i < |ops| :: Small(schema, ops[i])
    ensures RowsFit(schema, Stored(schema, ops)) && inMemory == Meaning(lib, schema, Stored(schema, ops), stmt)
    ensures AnswersInSomeOrder(lib, schema, Stored(schema, ops), stmt, onDisk)
  {
    var bops := BuildAll(schema, ops);
    var disk, mem, d, done := Sim.RunBoth(bops);
    assert bops[..done] == bops;
    ghost var m, b := Run(schema, ops, |ops|), Sim.Run(bops);
    Sim.ScansOfBoth(b, disk, mem, d);
    MemoryScan(schema, m, b, 0, EphemeralTable.IDS);
    SelectMeaning(lib, schema, Stored(schema, ops), stmt);
    ScanAnswers(lib, schema, m, b, TS.BytesOf(TS.ScanOf(TS.OnDisk(disk))), 0, EphemeralTable.IDS, stmt);
    onDisk := ExecuteSelect(lib, map[stmt.table := Table(schema, TS.OnDisk(disk))], stmt);
    inMemory := ExecuteSelect(lib, map[stmt.table := Table(schema, TS.InMemory(mem))], stmt);
  }
}
