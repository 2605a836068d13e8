/** Tables and their cursors without regard to the engine that stores them. */
module TableStorage {
  import opened Bytes
  import opened Wrappers
  import opened DiskFile
  import opened DiskTable
  import TableScan
  import EphemeralTable
  import HP = HeapPage

  datatype Engine = OnDisk(disk: HeapTable) | InMemory(mem: EphemeralTable.MemoryTable)

  type Row = (int, seq<byte>)

  ghost function Objects(e: Engine): set<object> {
    match e
    case OnDisk(disk) => {disk, disk.alloc}
    case InMemory(mem) => {mem}
  }

  ghost predicate Ok(e: Engine)
    reads Objects(e)
  {
    match e
    case OnDisk(disk) => disk.Valid()
    case InMemory(mem) => mem.Valid()
  }

  /** The rows by row id. */
  ghost function RowsOf(e: Engine): imap<nat, seq<byte>>
    reads Objects(e)
  {
    match e
    case OnDisk(disk) => Rows(disk.store, disk.chain)
    case InMemory(mem) => imap k: nat | k in mem.data :: mem.data[k]
  }

  /** How many more rows the table is certain to take: there are 2^20 - 1 data pages in a file
      and 2^48 ids in memory. */
  ghost function Space(e: Engine): int
    reads Objects(e)
  {
    match e
    case OnDisk(disk) => MAX_PAGES - 1 - |disk.chain|
    case InMemory(mem) => EphemeralTable.IDS - mem.generated
  }

  /** A table is what it was as long as its objects are. */
  twostate lemma Untouched(e: Engine)
    requires unchanged(Objects(e))
    ensures Ok(e) == old(Ok(e)) && RowsOf(e) == old(RowsOf(e)) && Space(e) == old(Space(e))
  {
  }

  /** The engine can store a row of this size. */
  predicate Storable(e: Engine, size: nat) { e.OnDisk? ==> size <= MAX_ROW }

  /** Adds a row under a fresh id. There is no result for a row that does not fit on a disk
      page; the code then writes through a slot that it did not get. */
  method Insert(e: Engine, row: seq<byte>) returns (rid: Option<nat>)
    requires Ok(e) && Space(e) > 0
    modifies Objects(e)
    ensures Ok(e) && (rid.Some? <==> Storable(e, |row|)) && Space(e) >= old(Space(e)) - 1
    ensures rid.Some? ==> rid.value !in old(RowsOf(e)) && RowsOf(e) == old(RowsOf(e))[rid.value := row]
    ensures rid.None? ==> RowsOf(e) == old(RowsOf(e)) && Space(e) == old(Space(e))
  {
    match e
    case OnDisk(disk) =>
      ghost var store, chain := disk.store, disk.chain;
      RoomForAPage(disk);
      rid := disk.InsertRow(row);
      if rid.Some? {
        FreshRow(store, chain, disk.store, disk.chain, rid.value, row);
      }
    case InMemory(mem) =>
      var id := mem.InsertRow(row);
      rid := Some(id);
  }

  lemma FreshRow(store: Store, chain: seq<nat>, store': Store, chain': seq<nat>, rid: nat, row: seq<byte>)
    requires Inserted(store, chain, store', chain', rid, row)
    ensures rid !in Rows(store, chain) && Rows(store', chain') == Rows(store, chain)[rid := row]
  {
    RowsAreIssued(store, chain);
  }

  /** Removes exactly one row. */
  method Delete(e: Engine, rid: nat)
    requires Ok(e) && rid in RowsOf(e)
    modifies Objects(e)
    ensures Ok(e) && RowsOf(e) == old(RowsOf(e)) - {rid} && Space(e) == old(Space(e))
  {
    match e
    case OnDisk(disk) =>
      RowIsIssued(disk.store, disk.chain, rid);
      disk.DeleteRow(rid);
    case InMemory(mem) =>
      var _ := mem.DeleteRow(rid);
  }

  /** The bytes of a list of rows. */
  ghost function BytesOf(rows: seq<Row>): (b: seq<seq<byte>>)
    ensures |b| == |rows|
  {
    seq(|rows|, i requires 0 <= i < |rows| => rows[i].1)
  }

  // ----- cursors

  datatype Cursor = DiskCursor(onDisk: TableScan.Cursor) | MemoryCursor(inMemory: EphemeralTable.MemoryCursor)

  /** The object that moves. */
  ghost function Moving(c: Cursor): object {
    match c
    case DiskCursor(d) => d
    case MemoryCursor(m) => m
  }

  ghost predicate CursorOk(c: Cursor)
    reads Moving(c)
  {
    match c
    case DiskCursor(d) => d.Valid()
    case MemoryCursor(m) => m.Valid()
  }

  /** The rows still to come, the current one first. */
  ghost function Rest(c: Cursor): seq<Row>
    requires CursorOk(c)
    reads Moving(c)
  {
    match c
    case DiskCursor(d) => d.Rest()
    case MemoryCursor(m) => m.Rest()
  }

  predicate AtEnd(c: Cursor)
    reads Moving(c)
  {
    match c
    case DiskCursor(d) => d.page == HP.NULL_PAGE
    case MemoryCursor(m) => m.at.None?
  }

  /** A scan of the whole table. */
  ghost function ScanOf(e: Engine): seq<Row>
    requires Ok(e)
    reads Objects(e)
  {
    match e
    case OnDisk(disk) => TableScan.ScanFrom(disk.store, disk.chain, 0, 0)
    case InMemory(mem) => EphemeralTable.RowsFrom(mem.data, 0, EphemeralTable.IDS)
  }

  /** Scanning yields every row once, with either engine. */
  lemma ScanListsRows(e: Engine)
    requires Ok(e)
    ensures TableScan.IsFullScan(RowsOf(e), ScanOf(e))
  {
    match e
    case OnDisk(disk) =>
      TableScan.ScanIsFull(disk.store, disk.chain);
    case InMemory(mem) =>
      EphemeralTable.RowsAreScan(mem.data);
  }

  /** A cursor at the start of the table. */
  method Begin(e: Engine) returns (c: Cursor)
    requires Ok(e)
    ensures fresh(Moving(c))
    ensures CursorOk(c) && Rest(c) == ScanOf(e)
  {
    match e
    case OnDisk(disk) =>
      var d := new TableScan.Cursor(disk);
      c := DiskCursor(d);
    case InMemory(mem) =>
      var m := new EphemeralTable.MemoryCursor(mem);
      c := MemoryCursor(m);
  }

  method Current(c: Cursor) returns (r: Row)
    requires CursorOk(c) && !AtEnd(c)
    ensures Rest(c) != [] && r == Rest(c)[0]
  {
    match c
    case DiskCursor(d) => r := d.Current();
    case MemoryCursor(m) => r := m.Current();
  }

  method Next(c: Cursor)
    requires CursorOk(c) && !AtEnd(c)
    modifies Moving(c)
    ensures CursorOk(c) && old(Rest(c)) != [] && Rest(c) == old(Rest(c))[1..]
  {
    match c
    case DiskCursor(d) => d.Next();
    case MemoryCursor(m) => m.Next();
  }

  /** The end of a scan is reached when no rows are left. */
  lemma NothingLeft(c: Cursor)
    requires CursorOk(c) && AtEnd(c)
    ensures Rest(c) == []
  {
    if c.DiskCursor? {
      TableScan.NullEndsList(c.onDisk.store, c.onDisk.chain, c.onDisk.i);
    }
  }

  /** All rows of a table, as a loop over it reads them. */
  method ScanAll(e: Engine) returns (rows: seq<Row>)
    requires Ok(e)
    ensures rows == ScanOf(e) && TableScan.IsFullScan(RowsOf(e), rows)
  {
    ScanListsRows(e);
    var c := Begin(e);
    rows := Drain(c);
  }

  lemma FirstOfRest(rows: seq<Row>, rest: seq<Row>)
    requires rest != []
    ensures (rows + [rest[0]]) + rest[1..] == rows + rest
  {
  }

  method Drain(c: Cursor) returns (rows: seq<Row>)
    requires CursorOk(c)
    modifies Moving(c)
    ensures rows == old(Rest(c))
  {
    rows := [];
    ghost var all := Rest(c);
    while !AtEnd(c)
      invariant CursorOk(c) && rows + Rest(c) == all
      decreases |Rest(c)|
    {
      var r := Current(c);
      FirstOfRest(rows, Rest(c));
      Next(c);
      rows := rows + [r];
    }
    NothingLeft(c);
  }
}
