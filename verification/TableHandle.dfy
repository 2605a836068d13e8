/** Tables of typed rows: a schema on top of stored bytes. */
module TableHandle {
  import opened Bytes
  import opened Wrappers
  import opened RowCodec
  import TableScan
  import TS = TableStorage

  /** The row id of a stored row, an exception, or no defined behaviour: a row that does not
      fit on a disk page is written through a slot that was not allocated. */
  datatype Outcome = Stored(id: nat) | Threw | Undefined

  /** Builds the row and inserts it. */
  method InsertRow(e: TS.Engine, schema: Schema, values: seq<Value>) returns (o: Outcome)
    requires TS.Ok(e) && TS.Space(e) > 0 && forall i | 0 <= i < |values| :: InRange(values[i])
    modifies TS.Objects(e)
    ensures TS.Ok(e) && TS.Space(e) >= old(TS.Space(e)) - 1
    ensures o.Threw? <==> !(Fits(schema, values) && Encodable(values))
    ensures o.Stored? <==> Fits(schema, values) && Encodable(values) && TS.Storable(e, |EncodeRow(values)|)
    ensures o.Stored? ==> o.id !in old(TS.RowsOf(e)) && TS.RowsOf(e) == old(TS.RowsOf(e))[o.id := EncodeRow(values)]
    ensures !o.Stored? ==> TS.RowsOf(e) == old(TS.RowsOf(e)) && TS.Space(e) == old(TS.Space(e))
  {
    var row := BuildRow(schema, values);
    if row.Err? {
      return Threw;
    }
    var rid := TS.Insert(e, row.value);
    o := if rid.Some? then Stored(rid.value) else Undefined;
  }

  // ----- tables whose rows are values of a type

  ghost predicate HoldsAt<T>(code: T -> seq<Value>, rows: imap<nat, seq<byte>>, typed: map<int, T>, id: nat) {
    && id in rows && id in typed && Encodable(code(typed[id]))
    && rows[id] == EncodeRow(code(typed[id]))
  }

  /** The stored rows are the encodings of `typed`. */
  ghost predicate Holds<T>(code: T -> seq<Value>, rows: imap<nat, seq<byte>>, typed: map<int, T>) {
    && (forall id: int {:trigger id in typed} | id in typed :: id >= 0 && HoldsAt(code, rows, typed, id))
    && (forall id: nat | id in rows :: id in typed)
  }

  lemma HoldsInserted<T>(code: T -> seq<Value>, rows: imap<nat, seq<byte>>, typed: map<int, T>, id: nat, x: T)
    requires Holds(code, rows, typed) && Encodable(code(x))
    ensures Holds(code, rows[id := EncodeRow(code(x))], typed[id := x])
  {
    var rows', typed' := rows[id := EncodeRow(code(x))], typed[id := x];
    forall i: int | i in typed' ensures i >= 0 && HoldsAt(code, rows', typed', i) {
      assert i != id ==> i >= 0 && HoldsAt(code, rows, typed, i);
    }
  }

  lemma HoldsDeleted<T>(code: T -> seq<Value>, rows: imap<nat, seq<byte>>, typed: map<int, T>, id: nat)
    requires Holds(code, rows, typed)
    ensures Holds(code, rows - {id}, typed - {id})
  {
    forall i: int | i in typed - {id} ensures i >= 0 && HoldsAt(code, rows - {id}, typed - {id}, i) {
      assert HoldsAt(code, rows, typed, i);
    }
  }

  ghost predicate ListedAt<T>(code: T -> seq<Value>, typed: map<int, T>, scan: seq<TS.Row>, m: nat)
    requires m < |scan|
  {
    && scan[m].0 >= 0 && scan[m].0 in typed && Encodable(code(typed[scan[m].0]))
    && scan[m].1 == EncodeRow(code(typed[scan[m].0]))
  }

  /** `scan` reads each of the typed rows exactly once, in some order. */
  ghost predicate Lists<T>(code: T -> seq<Value>, typed: map<int, T>, scan: seq<TS.Row>) {
    && (forall m {:trigger ListedAt(code, typed, scan, m)} | 0 <= m < |scan| :: ListedAt(code, typed, scan, m))
    && (forall m, n | 0 <= m < n < |scan| :: scan[m].0 != scan[n].0)
    && (forall id: int | id in typed :: Occurs(scan, id, |scan|))
  }

  /** Row `id` is among the first `n` of the scan. */
  ghost predicate Occurs(scan: seq<TS.Row>, id: int, n: nat) { exists m :: 0 <= m < n <= |scan| && scan[m].0 == id }

  /** A loop over the table reads the typed rows. */
  method ScanTyped<T>(e: TS.Engine, ghost code: T -> seq<Value>, ghost typed: map<int, T>) returns (scan: seq<TS.Row>)
    requires TS.Ok(e) && Holds(code, TS.RowsOf(e), typed)
    ensures Lists(code, typed, scan)
  {
    scan := TS.ScanAll(e);
    ScanListsTyped(code, TS.RowsOf(e), typed, scan);
  }

  lemma ScanListsTyped<T>(code: T -> seq<Value>, rows: imap<nat, seq<byte>>, typed: map<int, T>, scan: seq<TS.Row>)
    requires Holds(code, rows, typed) && TableScan.IsFullScan(rows, scan)
    ensures Lists(code, typed, scan)
  {
    forall m | 0 <= m < |scan| ensures ListedAt(code, typed, scan, m) {
      assert HoldsAt(code, rows, typed, scan[m].0);
    }
    forall id: int | id in typed ensures Occurs(scan, id, |scan|) {
      assert id >= 0 && HoldsAt(code, rows, typed, id);
      assert (id, rows[id]) in scan;
      var m :| 0 <= m < |scan| && scan[m] == (id, rows[id]);
    }
  }
}
