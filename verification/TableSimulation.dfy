/** The disk table and the in-memory table under the same operations.

    Both are compared with the simplest table: a map from insertion numbers to rows. The
    in-memory table uses the insertion numbers themselves as row ids; the disk table's ids
    are in bijection with them. */
module TableSimulation {
  import opened Bytes
  import opened DiskFile
  import opened DiskTable
  import opened TableScan
  import opened EphemeralTable
  import opened Wrappers
  import HP = HeapPage
  import TableStorage

  type Row = (int, seq<byte>)

  /** Operations name the rows they act on by insertion number. */
  datatype Op = Insert(row: seq<byte>) | Delete(h: nat) | Update(h: nat, row: seq<byte>)

  datatype Model = Model(rows: map<int, seq<byte>>, next: nat)

  /** Deleting or updating a row that does not exist is refused. */
  function Step(s: Model, op: Op): Model {
    match op
    case Insert(row) => Model(s.rows[s.next := row], s.next + 1)
    case Delete(h) => s.(rows := s.rows - {h})
    case Update(h, row) => if h in s.rows then Model((s.rows - {h})[s.next := row], s.next + 1) else s
  }

  function Run(ops: seq<Op>): Model {
    if ops == [] then Model(map[], 0) else Step(Run(ops[..|ops| - 1]), ops[|ops| - 1])
  }

  /** `d` maps the insertion numbers in use one-to-one onto the rows of the disk table. */
  ghost predicate Related(model: Model, rows: imap<nat, seq<byte>>, issued: iset<nat>, d: seq<nat>) {
    && |d| == model.next
    && (forall g, h | 0 <= g < h < |d| :: d[g] != d[h])
    && (forall h | 0 <= h < |d| :: d[h] in issued)
    && (forall h | h in model.rows :: 0 <= h < |d| && d[h] in rows && rows[d[h]] == model.rows[h])
    && (forall rid: nat | rid in rows :: Covered(model, d, rid))
  }

  ghost predicate Covered(model: Model, d: seq<nat>, rid: nat) {
    exists h :: h in model.rows && 0 <= h < |d| && d[h] == rid
  }

  lemma RelatedInsert(model: Model, rows: imap<nat, seq<byte>>, issued: iset<nat>, d: seq<nat>, rid: nat,
                      row: seq<byte>, rows': imap<nat, seq<byte>>, issued': iset<nat>)
    requires Related(model, rows, issued, d) && rid !in issued && (forall x: nat | x in rows :: x in issued)
    requires rows' == rows[rid := row] && issued' == issued + iset{rid}
    ensures Related(Step(model, Insert(row)), rows', issued', d + [rid])
  {
    var m', d' := Step(model, Insert(row)), d + [rid];
    forall x: nat | x in rows' ensures Covered(m', d', x) {
      if x == rid {
        assert d'[model.next] == x;
      } else {
        assert Covered(model, d, x);
        var h :| h in model.rows && 0 <= h < |d| && d[h] == x;
        assert d'[h] == x;
      }
    }
  }

  lemma RelatedDelete(model: Model, rows: imap<nat, seq<byte>>, issued: iset<nat>, d: seq<nat>, h: nat,
                      rows': imap<nat, seq<byte>>)
    requires Related(model, rows, issued, d) && h in model.rows && rows' == rows - {d[h]}
    ensures Related(Step(model, Delete(h)), rows', issued, d)
  {
  }

  lemma RelatedUpdate(model: Model, rows: imap<nat, seq<byte>>, issued: iset<nat>, d: seq<nat>, h: nat, rid: nat,
                      row: seq<byte>, rows': imap<nat, seq<byte>>, issued': iset<nat>)
    requires Related(model, rows, issued, d) && h in model.rows && rid !in issued
    requires forall x: nat | x in rows :: x in issued
    requires rows' == (rows - {d[h]})[rid := row] && issued' == issued + iset{rid}
    ensures Related(Step(model, Update(h, row)), rows', issued', d + [rid])
  {
    RelatedDelete(model, rows, issued, d, h, rows - {d[h]});
    RelatedInsert(Step(model, Delete(h)), rows - {d[h]}, issued, d, rid, row, rows', issued');
  }

  /** The disk table is in the state that `model` describes. */
  ghost predicate Holds(model: Model, store: Store, chain: seq<nat>, d: seq<nat>) {
    Related(model, Rows(store, chain), Issued(store, chain), d)
  }

  lemma HoldsInserted(model: Model, store: Store, chain: seq<nat>, store': Store, chain': seq<nat>, d: seq<nat>,
                      rid: nat, row: seq<byte>)
    requires Holds(model, store, chain, d) && Inserted(store, chain, store', chain', rid, row)
    ensures Holds(Step(model, Insert(row)), store', chain', d + [rid])
  {
    RowsAreIssued(store, chain);
    RelatedInsert(model, Rows(store, chain), Issued(store, chain), d, rid, row, Rows(store', chain'),
        Issued(store', chain'));
  }

  lemma HoldsRemoved(model: Model, store: Store, store': Store, chain: seq<nat>, d: seq<nat>, h: nat)
    requires Holds(model, store, chain, d) && h in model.rows && RowRemoved(store, store', chain, d[h])
    ensures Holds(Step(model, Delete(h)), store', chain, d)
  {
    RelatedDelete(model, Rows(store, chain), Issued(store, chain), d, h, Rows(store', chain));
  }

  lemma HoldsMoved(model: Model, store: Store, chain: seq<nat>, store': Store, chain': seq<nat>, d: seq<nat>,
                   h: nat, rid: nat, row: seq<byte>)
    requires Holds(model, store, chain, d) && h in model.rows && Moved(store, chain, store', chain', d[h], rid, row)
    ensures Holds(Step(model, Update(h, row)), store', chain', d + [rid])
  {
    RowsAreIssued(store, chain);
    RelatedUpdate(model, Rows(store, chain), Issued(store, chain), d, h, rid, row, Rows(store', chain'),
        Issued(store', chain'));
  }

  /** The row with insertion number `h` exists on disk. */
  lemma HandleExists(model: Model, store: Store, chain: seq<nat>, d: seq<nat>, h: nat)
    requires Holds(model, store, chain, d) && h in model.rows
    ensures h < |d| && d[h] in Rows(store, chain) && d[h] in Issued(store, chain)
  {
  }

  /** A pair of tables in the state that `model` describes. */
  ghost predicate Simulates(model: Model, disk: HeapTable, mem: MemoryTable, d: seq<nat>)
    reads disk, disk.alloc, mem
  {
    && disk.Valid() && mem.Valid()
    && mem.data == model.rows && mem.generated == model.next
    && Holds(model, disk.store, disk.chain, d)
  }

  method InsertBoth(disk: HeapTable, mem: MemoryTable, row: seq<byte>, d: seq<nat>, ghost model: Model)
    returns (d': seq<nat>)
    requires Simulates(model, disk, mem, d) && disk.CanInsert(|row|) && model.next < IDS
    modifies disk, disk.alloc, mem
    ensures Simulates(Step(model, Insert(row)), disk, mem, d') && |disk.chain| <= |old(disk.chain)| + 1
  {
    ghost var store, chain := disk.store, disk.chain;
    var rid := disk.InsertRow(row);
    var _ := mem.InsertRow(row);
    HoldsInserted(model, store, chain, disk.store, disk.chain, d, rid.value, row);
    d' := d + [rid.value];
  }

  method DeleteBoth(disk: HeapTable, mem: MemoryTable, h: nat, d: seq<nat>, ghost model: Model) returns (ok: bool)
    requires Simulates(model, disk, mem, d)
    modifies disk, mem
    ensures ok <==> h in model.rows
    ensures Simulates(Step(model, Delete(h)), disk, mem, d) && disk.chain == old(disk.chain)
  {
    ok := mem.DeleteRow(h);
    if !ok {
      RefusedSteps(model, h, []);
    } else {
      ghost var store := disk.store;
      HandleExists(model, store, disk.chain, d, h);
      disk.DeleteRow(d[h]);
      HoldsRemoved(model, store, disk.store, disk.chain, d, h);
    }
  }

  method UpdateBoth(disk: HeapTable, mem: MemoryTable, h: nat, row: seq<byte>, d: seq<nat>, ghost model: Model)
    returns (d': seq<nat>)
    requires Simulates(model, disk, mem, d) && (h in model.rows ==> disk.CanInsert(|row|)) && model.next < IDS
    modifies disk, disk.alloc, mem
    ensures Simulates(Step(model, Update(h, row)), disk, mem, d') && |disk.chain| <= |old(disk.chain)| + 1
  {
    d' := d;
    var ok, _ := mem.UpdateRow(h, row);
    if !ok {
      RefusedSteps(model, h, row);
    } else {
      UpdatedModel(model, h, row, mem.data, mem.generated);
      ghost var store, chain := disk.store, disk.chain;
      HandleExists(model, store, chain, d, h);
      var rid := disk.UpdateRow(d[h], row);
      HoldsMoved(model, store, chain, disk.store, disk.chain, d, h, rid.value, row);
      d' := d + [rid.value];
    }
  }

  lemma UpdatedModel(model: Model, h: nat, row: seq<byte>, data: map<int, seq<byte>>, generated: nat)
    requires h in model.rows && data == (model.rows - {h})[model.next := row] && generated == model.next + 1
    ensures Step(model, Update(h, row)) == Model(data, generated)
  {
  }

  lemma RefusedSteps(model: Model, h: nat, row: seq<byte>)
    requires h !in model.rows
    ensures Step(model, Update(h, row)) == Step(model, Delete(h)) == model
  {
    assert model.rows - {h} == model.rows;
  }

  /** The size of the row that an operation stores, if it stores one. */
  function Stores(op: Op, rows: map<int, seq<byte>>): Option<nat> {
    match op
    case Insert(row) => Some(|row|)
    case Delete(_) => None
    case Update(h, row) => if h in rows then Some(|row|) else None
  }

  /** One operation on both tables. */
  method StepBoth(disk: HeapTable, mem: MemoryTable, op: Op, d: seq<nat>, ghost model: Model) returns (d': seq<nat>)
    requires Simulates(model, disk, mem, d) && model.next < IDS
    requires Stores(op, model.rows).Some? ==> disk.CanInsert(Stores(op, model.rows).value)
    modifies disk, disk.alloc, mem
    ensures Simulates(Step(model, op), disk, mem, d') && |disk.chain| <= |old(disk.chain)| + 1
  {
    d' := d;
    match op {
      case Insert(row) =>
        d' := InsertBoth(disk, mem, row, d, model);
      case Delete(h) =>
        var _ := DeleteBoth(disk, mem, h, d, model);
      case Update(h, row) =>
        d' := UpdateBoth(disk, mem, h, row, d, model);
    }
  }

  /** Whether the disk table can store a row of this size, found out by walking its list. */
  method CanTake(disk: HeapTable, size: nat) returns (b: bool)
    requires disk.Valid()
    ensures b <==> disk.CanInsert(size)
  {
    if size > MAX_ROW || disk.alloc.CanAllocate(MAX_PAGES) {
      return size <= MAX_ROW;
    }
    var next := HP.PrevOf(disk.store[ROOT]);
    ghost var i := 0;
    while next != HP.NULL_PAGE
      invariant i <= |disk.chain| && next == Link(disk.chain, i) && AllFull(disk.store, disk.chain, i, size)
      decreases |disk.chain| - i
    {
      assert PageOk(disk.store, disk.chain, i);
      if HasRoom(disk.store[next], size) {
        RoomIsSmall(disk.store, disk.chain, i, size);
        return true;
      }
      next := HP.NextOf(disk.store[next]);
      i := i + 1;
    }
    NullEndsList(disk.store, disk.chain, i);
    return false;
  }

  lemma {:induction false} RunBound(ops: seq<Op>)
    ensures Run(ops).next <= |ops|
  {
    if ops != [] {
      RunBound(ops[..|ops| - 1]);
    }
  }

  lemma RunNext(ops: seq<Op>, n: nat)
    requires n < |ops|
    ensures Run(ops[..n + 1]) == Step(Run(ops[..n]), ops[n])
  {
    assert ops[..n + 1][..n] == ops[..n];
  }

  /** The operation stores a row that the disk table cannot take. */
  ghost predicate Stuck(disk: HeapTable, model: Model, op: Op)
    reads disk, disk.alloc
  {
    Stores(op, model.rows).Some? && !disk.CanInsert(Stores(op, model.rows).value)
  }

  predicate SmallRow(op: Op) { op.Delete? || |op.row| <= MAX_ROW }

  /** Small rows are those a table on disk can store. */
  lemma SmallRowIff(op: Op, e: TableStorage.Engine)
    requires e.OnDisk?
    ensures SmallRow(op) <==> op.Delete? || TableStorage.Storable(e, |op.row|)
  {
  }

  /** Any sequence of operations on two new tables, up to the first row that the disk table
      cannot take: both hold the rows of the model, the disk table under a bijection of row
      ids. Fewer than 2^20 - 1 operations with rows that fit on a page all succeed. */
  method RunBoth(ops: seq<Op>) returns (disk: HeapTable, mem: MemoryTable, d: seq<nat>, done: nat)
    requires |ops| < IDS
    ensures done <= |ops| && Simulates(Run(ops[..done]), disk, mem, d)
    ensures done < |ops| ==> Stuck(disk, Run(ops[..done]), ops[done])
    ensures |ops| + 1 < MAX_PAGES && (forall i | 0 <= i < |ops| :: SmallRow(ops[i])) ==> done == |ops|
  {
    disk := new HeapTable();
    mem := new MemoryTable();
    d, done := RunOn(disk, mem, ops);
  }

  method RunOn(disk: HeapTable, mem: MemoryTable, ops: seq<Op>) returns (d: seq<nat>, done: nat)
    requires |ops| < IDS && Simulates(Run([]), disk, mem, []) && disk.chain == []
    modifies disk, disk.alloc, mem
    ensures done <= |ops| && Simulates(Run(ops[..done]), disk, mem, d)
    ensures done < |ops| ==> Stuck(disk, Run(ops[..done]), ops[done])
    ensures |ops| + 1 < MAX_PAGES && (forall i | 0 <= i < |ops| :: SmallRow(ops[i])) ==> done == |ops|
  {
    d, done := [], 0;
    while done < |ops|
      invariant done <= |ops| && Simulates(Run(ops[..done]), disk, mem, d) && |disk.chain| <= done
    {
      ghost var model := Run(ops[..done]);
      RunBound(ops[..done]);
      RunNext(ops, done);
      var ok;
      ok, d := TryStep(disk, mem, ops[done], d, model);
      if !ok {
        if SmallRow(ops[done]) {
          StuckWhenFull(disk, model, ops[done]);
        }
        return;
      }
      done := done + 1;
    }
  }

  /** Carries out an operation on both tables, unless it stores a row that does not fit. */
  method TryStep(disk: HeapTable, mem: MemoryTable, op: Op, d: seq<nat>, ghost model: Model)
    returns (ok: bool, d': seq<nat>)
    requires Simulates(model, disk, mem, d) && model.next < IDS
    modifies disk, disk.alloc, mem
    ensures ok ==> Simulates(Step(model, op), disk, mem, d') && |disk.chain| <= |old(disk.chain)| + 1
    ensures !ok ==> Simulates(model, disk, mem, d') && disk.chain == old(disk.chain) && Stuck(disk, model, op)
  {
    ok, d' := true, d;
    var size := Stores(op, mem.data);
    if size.Some? {
      ok := CanTake(disk, size.value);
    }
    if ok {
      d' := StepBoth(disk, mem, op, d, model);
    }
  }

  /** Only a row that is too large, or a file with 2^20 - 1 data pages, stops a run. */
  lemma StuckWhenFull(disk: HeapTable, model: Model, op: Op)
    requires disk.Valid() && Stuck(disk, model, op) && SmallRow(op)
    ensures |disk.chain| + 1 >= MAX_PAGES
  {
    if |disk.chain| + 1 < MAX_PAGES { RoomForAPage(disk); }
  }

  // ----- scans of both tables

  ghost predicate NoRepeats(rows: seq<Row>) {
    forall m, n | 0 <= m < n < |rows| :: rows[m] != rows[n]
  }

  ghost predicate SameMembers(a: seq<Row>, b: seq<Row>) {
    (forall m | 0 <= m < |a| :: a[m] in b) && (forall m | 0 <= m < |b| :: b[m] in a)
  }

  lemma BytesWithout(rows: seq<Row>, j: nat)
    requires j < |rows|
    ensures multiset(TableStorage.BytesOf(rows)) == multiset(TableStorage.BytesOf(rows[..j] + rows[j + 1..]))
            + multiset{rows[j].1}
  {
    var b := TableStorage.BytesOf(rows);
    assert b == b[..j] + [b[j]] + b[j + 1..];
    assert TableStorage.BytesOf(rows[..j] + rows[j + 1..]) == b[..j] + b[j + 1..];
  }

  lemma BytesLast(rows: seq<Row>)
    requires rows != []
    ensures multiset(TableStorage.BytesOf(rows)) == multiset(TableStorage.BytesOf(rows[..|rows| - 1]))
            + multiset{rows[|rows| - 1].1}
  {
    assert TableStorage.BytesOf(rows) == TableStorage.BytesOf(rows[..|rows| - 1]) + [rows[|rows| - 1].1];
  }

  lemma DropMember(a: seq<Row>, b: seq<Row>, j: nat)
    requires NoRepeats(a) && NoRepeats(b) && SameMembers(a, b) && a != [] && j < |b| && b[j] == a[|a| - 1]
    ensures var a', b' := a[..|a| - 1], b[..j] + b[j + 1..];
            NoRepeats(a') && NoRepeats(b') && SameMembers(a', b')
  {
  }

  /** Lists without repetition that have the same members have the same bytes. */
  lemma {:induction false} SameMembersSameBytes(a: seq<Row>, b: seq<Row>)
    requires NoRepeats(a) && NoRepeats(b) && SameMembers(a, b)
    ensures multiset(TableStorage.BytesOf(a)) == multiset(TableStorage.BytesOf(b))
    decreases |a|
  {
    if a != [] {
      assert a[|a| - 1] in b;
      var j :| 0 <= j < |b| && b[j] == a[|a| - 1];
      DropMember(a, b, j);
      SameMembersSameBytes(a[..|a| - 1], b[..j] + b[j + 1..]);
      BytesWithout(b, j);
      BytesLast(a);
    }
  }

  /** The rows of the in-memory table under the disk table's row ids. */
  ghost function Renamed(rows: seq<Row>, d: seq<nat>): (r: seq<Row>)
    requires forall m | 0 <= m < |rows| :: 0 <= rows[m].0 < |d|
    ensures |r| == |rows| && forall m | 0 <= m < |r| :: r[m] == (d[rows[m].0], rows[m].1)
  {
    seq(|rows|, i requires 0 <= i < |rows| => (d[rows[i].0], rows[i].1))
  }

  /** Full scans of related tables list the same rows, up to the bijection of row ids, and so
      the same multiset of row bytes. */
  lemma ScansAgree(model: Model, rows: imap<nat, seq<byte>>, issued: iset<nat>, d: seq<nat>, diskScan: seq<Row>,
                   memScan: seq<Row>)
    requires Related(model, rows, issued, d) && IsFullScan(rows, diskScan) && IsScan(model.rows, memScan)
    ensures SameMembers(diskScan, Renamed(memScan, d))
    ensures multiset(TableStorage.BytesOf(diskScan)) == multiset(TableStorage.BytesOf(memScan))
  {
    var renamed := Renamed(memScan, d);
    forall m | 0 <= m < |diskScan| ensures diskScan[m] in renamed {
      assert Covered(model, d, diskScan[m].0);
      var h :| h in model.rows && 0 <= h < |d| && d[h] == diskScan[m].0;
      assert (h, model.rows[h]) in memScan;
      var n :| 0 <= n < |memScan| && memScan[n] == (h, model.rows[h]);
      assert renamed[n] == diskScan[m];
    }
    forall m | 0 <= m < |renamed| ensures renamed[m] in diskScan {
      var h := memScan[m].0;
      assert h in model.rows && rows[d[h]] == memScan[m].1;
    }
    SameMembersSameBytes(diskScan, renamed);
    assert TableStorage.BytesOf(renamed) == TableStorage.BytesOf(memScan);
  }

  lemma ScansOfBoth(model: Model, disk: HeapTable, mem: MemoryTable, d: seq<nat>)
    requires Simulates(model, disk, mem, d)
    ensures TableStorage.ScanOf(TableStorage.InMemory(mem)) == RowsFrom(model.rows, 0, IDS)
    ensures multiset(TableStorage.BytesOf(TableStorage.ScanOf(TableStorage.OnDisk(disk))))
         == multiset(TableStorage.BytesOf(RowsFrom(model.rows, 0, IDS)))
  {
    RowsAreScan(model.rows);
    ScanIsFull(disk.store, disk.chain);
    ScansAgree(model, Rows(disk.store, disk.chain), Issued(disk.store, disk.chain), d,
               TableStorage.ScanOf(TableStorage.OnDisk(disk)), RowsFrom(model.rows, 0, IDS));
  }

  /** Runs the operations on both tables and scans both: the scans hold the same rows. */
  method RunAndScan(ops: seq<Op>) returns (disk: HeapTable, diskScan: seq<Row>, memScan: seq<Row>, done: nat)
    requires |ops| < IDS
    ensures done <= |ops| && (done < |ops| ==> Stuck(disk, Run(ops[..done]), ops[done]))
    ensures IsFullScan(Rows(disk.store, disk.chain), diskScan) && IsScan(Run(ops[..done]).rows, memScan)
    ensures multiset(TableStorage.BytesOf(diskScan)) == multiset(TableStorage.BytesOf(memScan))
  {
    var mem, d;
    disk, mem, d, done := RunBoth(ops);
    diskScan := TableStorage.ScanAll(TableStorage.OnDisk(disk));
    memScan := TableStorage.ScanAll(TableStorage.InMemory(mem));
    RowsAreScan(mem.data);
    ScansAgree(Run(ops[..done]), Rows(disk.store, disk.chain), Issued(disk.store, disk.chain), d, diskScan, memScan);
  }
}
