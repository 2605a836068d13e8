/** The in-memory table: a map from row ids to rows, with an id counter split into a 32-bit
    page part and a 16-bit slot part. */
module EphemeralTable {
  import opened Bytes
  import opened Wrappers
  import opened DiskTable

  const IDS: nat := 0x1_0000_0000_0000

  class MemoryTable {
    var data: map<int, seq<byte>>
    var nextPage: nat
    var nextSlot: nat
    /** Number of ids handed out, and how often the counter has wrapped around. */
    ghost var generated: nat
    ghost var wraps: nat

    ghost predicate Valid()
      reads this
    {
      && nextPage < 0x1_0000_0000 && nextSlot < 0x1_0000
      && generated == wraps * IDS + MakeRowId(nextPage, nextSlot)
      && (forall k | k in data :: 0 <= k < IDS && (generated <= IDS ==> k < generated))
    }

    constructor ()
      ensures Valid() && data == map[] && generated == 0
    {
      data, nextPage, nextSlot, generated, wraps := map[], 0, 0, 0, 0;
    }

    /** The n-th id is n, modulo 2^48. */
    method GenerateRowId() returns (rid: nat)
      requires Valid()
      modifies this`nextPage, this`nextSlot, this`generated, this`wraps
      ensures Valid() && rid == old(generated) % IDS && generated == old(generated) + 1
    {
      rid := MakeRowId(nextPage, nextSlot);
      nextSlot := (nextSlot + 1) % 0x1_0000;
      if nextSlot == 0 {
        nextPage := (nextPage + 1) % 0x1_0000_0000;
      }
      generated, wraps := generated + 1, if nextPage == 0 && nextSlot == 0 then wraps + 1 else wraps;
    }

    /** An id that is still taken is not overwritten; that cannot happen before the counter
        wraps around. */
    method InsertRow(row: seq<byte>) returns (rid: nat)
      requires Valid()
      modifies this
      ensures Valid() && rid == old(generated) % IDS && generated == old(generated) + 1
      ensures data == if rid in old(data) then old(data) else old(data)[rid := row]
      ensures old(generated) < IDS ==> rid == old(generated) && rid !in old(data)
    {
      rid := GenerateRowId();
      if rid !in data {
        data := data[rid := row];
      }
    }

    /** Fails, changing nothing, for an id without a row. */
    method DeleteRow(rid: nat) returns (ok: bool)
      requires Valid()
      modifies this`data
      ensures Valid() && (ok <==> rid in old(data)) && data == old(data) - {rid}
    {
      ok := rid in data;
      if ok {
        data := data - {rid};
      }
    }

    method UpdateRow(rid: nat, row: seq<byte>) returns (ok: bool, rid': nat)
      requires Valid()
      modifies this
      ensures Valid() && (ok <==> rid in old(data))
      ensures !ok ==> data == old(data) && generated == old(generated)
      ensures ok ==> rid' == old(generated) % IDS && generated == old(generated) + 1
      ensures ok && old(generated) < IDS ==> rid' == old(generated) && data == (old(data) - {rid})[rid' := row]
    {
      rid' := 0;
      ok := DeleteRow(rid);
      if ok {
        rid' := InsertRow(row);
      }
    }
  }

  // ----- the cursor: iteration over an ordered map

  type Row = (int, seq<byte>)

  /** The rows with ids from `k` up to `n`, in ascending order. */
  ghost function RowsFrom(data: map<int, seq<byte>>, k: nat, n: nat): seq<Row>
    decreases n - k, data
  {
    if k >= n then [] else (if k in data then [(k as int, data[k])] else []) + RowsFrom(data, k + 1, n)
  }

  lemma {:induction false} RowsFromSkips(data: map<int, seq<byte>>, k: nat, k': nat, n: nat)
    requires k <= k' <= n && forall j | j in data :: !(k <= j < k')
    ensures RowsFrom(data, k, n) == RowsFrom(data, k', n)
    decreases k' - k
  {
    if k < k' {
      RowsFromSkips(data, k + 1, k', n);
    }
  }

  lemma {:induction false} RowsFromSound(data: map<int, seq<byte>>, k: nat, n: nat, m: nat)
    requires m < |RowsFrom(data, k, n)|
    ensures var r := RowsFrom(data, k, n)[m]; k <= r.0 < n && r.0 in data && data[r.0] == r.1
    decreases n - k
  {
    if k !in data {
      RowsFromSound(data, k + 1, n, m);
    } else if m > 0 {
      RowsFromSound(data, k + 1, n, m - 1);
    }
  }

  lemma {:induction false} RowsFromAscends(data: map<int, seq<byte>>, k: nat, n: nat, l: nat, m: nat)
    requires l < m < |RowsFrom(data, k, n)|
    ensures RowsFrom(data, k, n)[l].0 < RowsFrom(data, k, n)[m].0
    decreases n - k
  {
    if k !in data {
      RowsFromAscends(data, k + 1, n, l, m);
    } else if l > 0 {
      RowsFromAscends(data, k + 1, n, l - 1, m - 1);
    } else {
      RowsFromSound(data, k + 1, n, m - 1);
    }
  }

  lemma {:induction false} RowsFromComplete(data: map<int, seq<byte>>, k: nat, n: nat, j: int)
    requires k <= j < n && j in data
    ensures (j, data[j]) in RowsFrom(data, k, n)
    decreases n - k
  {
    if k < j {
      RowsFromComplete(data, k + 1, n, j);
    }
  }

  /** `rows` lists each row of `data` exactly once, in ascending order of ids. */
  ghost predicate IsScan(data: map<int, seq<byte>>, rows: seq<Row>) {
    && (forall m | 0 <= m < |rows| :: rows[m].0 in data && data[rows[m].0] == rows[m].1)
    && (forall l, m | 0 <= l < m < |rows| :: rows[l].0 < rows[m].0)
    && (forall k | k in data :: (k, data[k]) in rows)
  }

  lemma RowsAreScan(data: map<int, seq<byte>>)
    requires forall k | k in data :: 0 <= k < IDS
    ensures IsScan(data, RowsFrom(data, 0, IDS))
  {
    var rows := RowsFrom(data, 0, IDS);
    forall m | 0 <= m < |rows| ensures rows[m].0 in data && data[rows[m].0] == rows[m].1 {
      RowsFromSound(data, 0, IDS, m);
    }
    forall l, m | 0 <= l < m < |rows| ensures rows[l].0 < rows[m].0 { RowsFromAscends(data, 0, IDS, l, m); }
    forall k | k in data ensures (k, data[k]) in rows { RowsFromComplete(data, 0, IDS, k); }
  }

  /** The smallest id from `from` on that has a row. */
  method NextId(data: map<int, seq<byte>>, from: int) returns (r: Option<int>)
    ensures r.None? ==> forall k | k in data :: k < from
    ensures r.Some? ==> r.value in data && from <= r.value && forall k | k in data :: !(from <= k < r.value)
  {
    r := None;
    var rest := data.Keys;
    while rest != {}
      invariant rest <= data.Keys
      invariant r.None? ==> forall k | k in data && k !in rest :: k < from
      invariant r.Some? ==>
                  r.value in data && from <= r.value && forall k | k in data && k !in rest :: !(from <= k < r.value)
      decreases rest
    {
      var k := Pick(rest);
      if from <= k && (r.None? || k < r.value) {
        r := Some(k);
      }
      rest := rest - {k};
    }
  }

  class MemoryCursor {
    /** The rows of the table, which do not change during the scan. */
    const data: map<int, seq<byte>>
    /** The id of the current row, or nothing past the end. */
    var at: Option<int>

    ghost predicate Valid()
      reads this
    {
      (forall k | k in data :: 0 <= k < IDS) && (at.Some? ==> at.value in data)
    }

    /** The rows that are still to come, the current one first. */
    ghost function Rest(): seq<Row>
      requires Valid()
      reads this
    {
      if at.None? then [] else RowsFrom(data, at.value, IDS)
    }

    constructor (t: MemoryTable)
      requires t.Valid()
      ensures Valid() && data == t.data && Rest() == RowsFrom(t.data, 0, IDS)
    {
      data := t.data;
      var first := NextId(t.data, 0);
      at := first;
      new;
      RowsFromSkips(t.data, 0, if at.Some? then at.value else IDS, IDS);
    }

    method Current() returns (r: Row)
      requires Valid() && at.Some?
      ensures Rest() != [] && r == Rest()[0]
    {
      r := (at.value, data[at.value]);
    }

    /** Moving on drops exactly the current row. */
    method Next()
      requires Valid() && at.Some?
      modifies this
      ensures Valid() && old(Rest()) != [] && Rest() == old(Rest())[1..]
    {
      var k: nat := at.value;
      at := NextId(data, k + 1);
      RowsFromSkips(data, k + 1, if at.Some? then at.value else IDS, IDS);
    }

    /** Seeking to a row continues the scan from there; an id without a row is refused. */
    method Seek(rid: int) returns (ok: bool)
      requires Valid()
      modifies this
      ensures ok <==> rid in data
      ensures Valid() && (ok ==> Rest() != [] && Rest()[0].0 == rid)
      ensures !ok ==> Rest() == []
    {
      ok := rid in data;
      at := if ok then Some(rid) else None;
    }
  }
}
