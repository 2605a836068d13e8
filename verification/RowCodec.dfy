/** The byte encoding of values and rows.

    Integers are stored little-endian in two's complement, strings behind a 16-bit length.
    A double is kept as the eight bytes that represent it. */
module RowCodec {
  import opened Bytes
  import opened LittleEndian
  import opened Wrappers

  datatype Type = TypeI32 | TypeString | TypeU32 | TypeI64 | TypeF64

  datatype Value = I32(i: int) | Str(chars: seq<byte>) | U32(u: int) | I64(l: int) | F64(bits: seq<byte>)

  datatype Column = Column(name: seq<byte>, typ: Type)

  type Schema = seq<Column>

  function TypeOf(v: Value): Type {
    match v
    case I32(_) => TypeI32
    case Str(_) => TypeString
    case U32(_) => TypeU32
    case I64(_) => TypeI64
    case F64(_) => TypeF64
  }

  /** Values that exist: integers in the range of their type, doubles of eight bytes. */
  predicate InRange(v: Value) {
    match v
    case I32(i) => -0x8000_0000 <= i < 0x8000_0000
    case Str(_) => true
    case U32(u) => 0 <= u < 0x1_0000_0000
    case I64(l) => -0x8000_0000_0000_0000 <= l < 0x8000_0000_0000_0000
    case F64(bits) => |bits| == 8
  }

  // ----- fixed-width integers

  /** Two's complement in `n` bytes. */
  function ToUnsigned(v: int, n: nat): int { if v < 0 then v + Pow256(n) else v }

  function ToSigned(u: nat, n: nat): int { if 2 * u >= Pow256(n) then u - Pow256(n) else u }

  // ----- values

  function StringBytes(s: seq<byte>): seq<byte>
    requires |s| < 0x1_0000
  {
    [|s| % 256, |s| / 256] + s
  }

  /** `to_bytes`: only a string of more than 65535 bytes cannot be encoded. */
  function Encode(v: Value): Result<seq<byte>>
    requires InRange(v)
  {
    Widths();
    match v
    case I32(i) => Ok(LeBytes(ToUnsigned(i, 4), 4))
    case Str(s) => if |s| >= 0x1_0000 then Err else Ok(StringBytes(s))
    case U32(u) => Ok(LeBytes(u, 4))
    case I64(l) => Ok(LeBytes(ToUnsigned(l, 8), 8))
    case F64(bits) => Ok(bits)
  }

  /** `serialized_size` of the value at the front of a buffer. */
  function SizeAt(t: Type, b: seq<byte>): Result<nat> {
    match t
    case TypeI32 => Ok(4)
    case TypeU32 => Ok(4)
    case TypeI64 => Ok(8)
    case TypeF64 => Ok(8)
    case TypeString => if |b| < 2 then Err else Ok(2 + GetU16(b, 0))
  }

  /** `from_bytes`: the value at the front of a buffer. */
  function Decode(t: Type, b: seq<byte>): Result<Value> {
    match SizeAt(t, b)
    case Err => Err
    case Ok(n) =>
      if |b| < n then Err
      else
        match t
        case TypeI32 => Ok(I32(ToSigned(LeValue(b[..4]), 4)))
        case TypeU32 => Ok(U32(LeValue(b[..4])))
        case TypeI64 => Ok(I64(ToSigned(LeValue(b[..8]), 8)))
        case TypeF64 => Ok(F64(b[..8]))
        case TypeString => Ok(Str(b[2..n]))
  }

  /** A value at the front of a buffer decodes to itself, and its size is known. */
  lemma ValueRoundTrip(v: Value, rest: seq<byte>)
    requires InRange(v) && Encode(v).Ok?
    ensures Decode(TypeOf(v), Encode(v).value + rest) == Ok(v)
    ensures SizeAt(TypeOf(v), Encode(v).value + rest) == Ok(|Encode(v).value|)
  {
    Widths();
    var e := Encode(v).value;
    var b := e + rest;
    match v {
      case I32(i) =>
        LeRoundTrip(ToUnsigned(i, 4), 4);
        assert b[..4] == e;
      case U32(u) =>
        LeRoundTrip(u, 4);
        assert b[..4] == e;
      case I64(l) =>
        LeRoundTrip(ToUnsigned(l, 8), 8);
        assert b[..8] == e;
      case F64(bits) =>
        assert b[..8] == e;
      case Str(s) =>
        assert b[2..2 + |s|] == s;
    }
  }

  /** What decodes is the encoding of what it decodes to, and bytes decode exactly if there
      are as many as the size says. */
  lemma DecodedIsEncoded(t: Type, b: seq<byte>)
    ensures Decode(t, b).Ok? <==> SizeAt(t, b).Ok? && SizeAt(t, b).value <= |b|
    ensures Decode(t, b).Ok? ==>
              var v := Decode(t, b).value;
              InRange(v) && TypeOf(v) == t && Encode(v) == Ok(b[..SizeAt(t, b).value])
  {
    if SizeAt(t, b).Ok? && SizeAt(t, b).value <= |b| {
      Widths();
      match t {
        case TypeI32 => NumberBytes(b[..4], 4);
        case TypeU32 => NumberBytes(b[..4], 4);
        case TypeI64 => NumberBytes(b[..8], 8);
        case TypeF64 =>
        case TypeString => StringFront(b, GetU16(b, 0));
      }
    }
  }

  /** Reading a number and writing it again gives the same bytes. */
  lemma NumberBytes(b: seq<byte>, n: nat)
    requires |b| == n > 0
    ensures LeValue(b) < Pow256(n) && LeBytes(LeValue(b), n) == b
    ensures var v := ToSigned(LeValue(b), n);
            0 <= 2 * v + Pow256(n) < 2 * Pow256(n) && ToUnsigned(v, n) == LeValue(b)
  {
    LeBound(b);
    LeRoundTrip(LeValue(b), n);
    LeInjective(LeBytes(LeValue(b), n), b);
  }

  lemma StringFront(b: seq<byte>, n: nat)
    requires 2 + n <= |b| && n == GetU16(b, 0)
    ensures StringBytes(b[2..2 + n]) == b[..2 + n]
  {
    assert n % 256 == b[0] as int && n / 256 == b[1] as int;
  }

  // ----- rows

  /** Values that fit a schema: one per column, of its type. */
  ghost predicate Fits(schema: Schema, values: seq<Value>) {
    && |values| == |schema|
    && forall i | 0 <= i < |values| :: InRange(values[i]) && TypeOf(values[i]) == schema[i].typ
  }

  /** Every value can be encoded. */
  ghost predicate Encodable(values: seq<Value>) {
    forall i | 0 <= i < |values| :: InRange(values[i]) && Encode(values[i]).Ok?
  }

  /** The encodings of the first `n` values, one behind the other. */
  ghost function Prefix(values: seq<Value>, n: nat): seq<byte>
    requires n <= |values| && Encodable(values)
  {
    if n == 0 then [] else Prefix(values, n - 1) + Encode(values[n - 1]).value
  }

  ghost function EncodeRow(values: seq<Value>): seq<byte>
    requires Encodable(values)
  {
    Prefix(values, |values|)
  }

  lemma {:induction false} PrefixGrows(values: seq<Value>, i: nat, n: nat)
    requires Encodable(values) && i <= n <= |values|
    ensures Prefix(values, i) <= Prefix(values, n)
  {
    if i < n {
      PrefixGrows(values, i, n - 1);
    }
  }

  /** A row that starts with `p + e` has `e` behind `p`. */
  lemma SplitAfter(row: seq<byte>, p: seq<byte>, e: seq<byte>)
    requires p + e <= row
    ensures row[|p|..] == e + row[|p| + |e|..] && row[|p|..|p| + |e|] == e
  {
  }

  /** `CalculateOffset`: the columns in front are skipped one by one. */
  method CalculateOffset(schema: Schema, row: seq<byte>, pos: nat) returns (r: Result<nat>)
    requires pos < |schema|
    ensures r == OffsetOf(schema, row, pos)
  {
    var offset := 0;
    for i := 0 to pos
      invariant OffsetOf(schema, row, i) == Ok(offset)
    {
      if offset > |row| {
        OffsetErrs(schema, row, i + 1, pos);
        return Err;
      }
      var size := SizeAt(schema[i].typ, row[offset..]);
      if size.Err? {
        OffsetErrs(schema, row, i + 1, pos);
        return Err;
      }
      offset := offset + size.value;
    }
    r := Ok(offset);
  }

  /** Offset of a column, or an error if the row ends before it. */
  function OffsetOf(schema: Schema, row: seq<byte>, pos: nat): Result<nat>
    requires pos <= |schema|
  {
    if pos == 0 then Ok(0) else OffsetAfter(schema[pos - 1].typ, row, OffsetOf(schema, row, pos - 1))
  }

  /** The offset behind the value that starts at `offset`. */
  function OffsetAfter(t: Type, row: seq<byte>, offset: Result<nat>): Result<nat> {
    if offset.Err? || offset.value > |row| then Err
    else
      match SizeAt(t, row[offset.value..])
      case Err => Err
      case Ok(n) => Ok(offset.value + n)
  }

  lemma {:induction false} OffsetErrs(schema: Schema, row: seq<byte>, i: nat, pos: nat)
    requires i <= pos <= |schema| && OffsetOf(schema, row, i).Err?
    ensures OffsetOf(schema, row, pos).Err?
  {
    if i < pos {
      OffsetErrs(schema, row, i, pos - 1);
    }
  }

  /** `GetValue`: reads a column as the type the schema gives it. */
  function GetValue(schema: Schema, row: seq<byte>, pos: nat): Result<Value>
    requires pos < |schema|
  {
    match OffsetOf(schema, row, pos)
    case Err => Err
    case Ok(o) => if o > |row| then Err else Decode(schema[pos].typ, row[o..])
  }

  /** Offsets in an encoded row are the sums of the encoded sizes in front. */
  lemma {:induction false} OffsetsArePrefixSums(schema: Schema, values: seq<Value>, pos: nat)
    requires Fits(schema, values) && Encodable(values) && pos <= |schema|
    ensures OffsetOf(schema, EncodeRow(values), pos) == Ok(|Prefix(values, pos)|)
  {
    if pos > 0 {
      OffsetsArePrefixSums(schema, values, pos - 1);
      FieldAt(schema, values, pos - 1);
      AfterValue(schema[pos - 1].typ, EncodeRow(values), |Prefix(values, pos - 1)|, |Encode(values[pos - 1]).value|);
    }
  }

  lemma AfterValue(t: Type, row: seq<byte>, o: nat, n: nat)
    requires o + n <= |row| && SizeAt(t, row[o..]) == Ok(n)
    ensures OffsetAfter(t, row, Ok(o)) == Ok(o + n) && BytesAt(t, row, Ok(o)) == Ok(row[o..o + n])
  {
  }

  /** What the reader sees at the offset of a column. */
  lemma FieldAt(schema: Schema, values: seq<Value>, i: nat)
    requires Fits(schema, values) && Encodable(values) && i < |values|
    ensures |Prefix(values, i)| <= |EncodeRow(values)|
    ensures var b := EncodeRow(values)[|Prefix(values, i)|..];
            && Decode(schema[i].typ, b) == Ok(values[i])
            && SizeAt(schema[i].typ, b) == Ok(|Encode(values[i]).value|)
    ensures |Prefix(values, i + 1)| == |Prefix(values, i)| + |Encode(values[i]).value| <= |EncodeRow(values)|
    ensures EncodeRow(values)[|Prefix(values, i)|..|Prefix(values, i + 1)|] == Encode(values[i]).value
  {
    var row, p, e := EncodeRow(values), Prefix(values, i), Encode(values[i]).value;
    PrefixGrows(values, i + 1, |values|);
    SplitAfter(row, p, e);
    ValueRoundTrip(values[i], row[|p| + |e|..]);
  }

  /** Reading position `i` of an encoded row returns value `i`. */
  lemma RowRoundTrip(schema: Schema, values: seq<Value>, i: nat)
    requires Fits(schema, values) && Encodable(values) && i < |values|
    ensures GetValue(schema, EncodeRow(values), i) == Ok(values[i])
  {
    OffsetsArePrefixSums(schema, values, i);
    FieldAt(schema, values, i);
  }

  // ----- building rows

  /** A growing byte buffer; its capacity is the length of the allocation. */
  class RowBuilder {
    var data: array<byte>
    var size: nat

    ghost predicate Valid()
      reads this
    {
      size <= data.Length
    }

    ghost function Data(): seq<byte>
      requires Valid()
      reads this, data
    {
      data[..size]
    }

    constructor ()
      ensures Valid() && fresh(data) && Data() == []
    {
      data := new byte[0];
      size := 0;
    }

    /** Appends the encoding of a value, or fails and leaves the row as it was. */
    method Push(v: Value) returns (ok: bool)
      requires Valid() && InRange(v)
      modifies this, data
      ensures Valid() && (data == old(data) || fresh(data)) && (ok <==> Encode(v).Ok?)
      ensures Data() == if ok then old(Data()) + Encode(v).value else old(Data())
    {
      var required := size + SerializedSize(v);
      if required > data.Length {
        AllocateSpace(required);
      }
      var e := Encode(v);
      ok := e.Ok?;
      if ok {
        ghost var before := data[..size];
        CopyInto(data, size, e.value);
        size := required;
        assert data[..size] == before + e.value;
      }
    }

    /** Moves the row to a larger allocation. */
    method AllocateSpace(capacity: nat)
      requires Valid() && size <= capacity
      modifies this`data
      ensures Valid() && fresh(data) && data.Length == capacity && Data() == old(Data())
    {
      var bigger := new byte[capacity];
      forall i | 0 <= i < size { bigger[i] := data[i]; }
      data := bigger;
    }
  }

  /** The number of bytes that encoding a value takes. */
  function SerializedSize(v: Value): (n: nat)
    requires InRange(v)
    ensures Encode(v).Ok? ==> n == |Encode(v).value|
  {
    match v
    case I32(_) => 4
    case Str(s) => 2 + |s|
    case U32(_) => 4
    case I64(_) => 8
    case F64(_) => 8
  }

  /** Value `j` fits its column and can be encoded. */
  ghost predicate StorableAt(schema: Schema, values: seq<Value>, j: nat)
    requires j < |values| == |schema|
  {
    InRange(values[j]) && TypeOf(values[j]) == schema[j].typ && Encode(values[j]).Ok?
  }

  ghost predicate StorableBelow(schema: Schema, values: seq<Value>, n: nat) {
    && n <= |values| == |schema|
    && forall j {:trigger StorableAt(schema, values, j)} | 0 <= j < n :: StorableAt(schema, values, j)
  }

  lemma StorableIff(schema: Schema, values: seq<Value>)
    requires |values| == |schema| && forall i | 0 <= i < |values| :: InRange(values[i])
    ensures StorableBelow(schema, values, |values|) <==> Fits(schema, values) && Encodable(values)
  {
    if Fits(schema, values) && Encodable(values) {
      forall j | 0 <= j < |values| ensures StorableAt(schema, values, j) { }
    }
    if StorableBelow(schema, values, |values|) {
      forall j | 0 <= j < |values| ensures TypeOf(values[j]) == schema[j].typ && Encode(values[j]).Ok? {
        assert StorableAt(schema, values, j);
      }
    }
  }

  /** Builds a row for a table: exactly the values that fit the schema and can be encoded
      make a row, and it is their encoding. */
  method BuildRow(schema: Schema, values: seq<Value>) returns (r: Result<seq<byte>>)
    requires forall i | 0 <= i < |values| :: InRange(values[i])
    ensures r.Ok? <==> Fits(schema, values) && Encodable(values)
    ensures r.Ok? ==> r.value == EncodeRow(values)
  {
    if |values| != |schema| {
      return Err;
    }
    StorableIff(schema, values);
    var rb := new RowBuilder();
    for i := 0 to |values|
      invariant rb.Valid() && fresh(rb) && fresh(rb.data)
      invariant StorableBelow(schema, values, i)
      invariant Encodable(values[..i]) && rb.Data() == EncodeRow(values[..i])
    {
      if TypeOf(values[i]) != schema[i].typ {
        assert !StorableAt(schema, values, i);
        return Err;
      }
      var ok := rb.Push(values[i]);
      if !ok {
        assert !StorableAt(schema, values, i);
        return Err;
      }
      assert StorableAt(schema, values, i);
      EncodeNext(values, i);
    }
    assert values[..|values|] == values;
    r := Ok(rb.data[..rb.size]);
  }

  lemma {:induction false} PrefixOfPrefix(a: seq<Value>, b: seq<Value>, n: nat)
    requires Encodable(a) && Encodable(b) && n <= |a| && n <= |b| && forall i | 0 <= i < n :: a[i] == b[i]
    ensures Prefix(a, n) == Prefix(b, n)
  {
    if n > 0 {
      PrefixOfPrefix(a, b, n - 1);
    }
  }

  lemma EncodeNext(values: seq<Value>, i: nat)
    requires i < |values| && Encodable(values[..i]) && InRange(values[i]) && Encode(values[i]).Ok?
    ensures Encodable(values[..i + 1])
    ensures EncodeRow(values[..i + 1]) == EncodeRow(values[..i]) + Encode(values[i]).value
  {
    var a, b := values[..i], values[..i + 1];
    assert forall j | 0 <= j < i :: b[j] == a[j];
    assert forall j | 0 <= j < |b| :: InRange(b[j]) && Encode(b[j]).Ok?;
    PrefixOfPrefix(a, b, i);
  }

  // ----- projecting rows

  /** Copies the selected fields out of a row, without decoding them. */
  method Project(schema: Schema, row: seq<byte>, fields: seq<nat>) returns (r: Result<seq<byte>>)
    requires forall j | 0 <= j < |fields| :: fields[j] < |schema|
    ensures r == Projected(schema, row, fields, |fields|)
  {
    r := Ok([]);
    for j := 0 to |fields|
      invariant r.Ok? && r == Projected(schema, row, fields, j)
    {
      var field := ReadField(schema, row, fields[j]);
      r := Join(r, field);
      if r.Err? {
        ProjectedErrs(schema, row, fields, j + 1, |fields|);
        return;
      }
    }
  }

  method ReadField(schema: Schema, row: seq<byte>, i: nat) returns (r: Result<seq<byte>>)
    requires i < |schema|
    ensures r == FieldBytes(schema, row, i)
  {
    var offset := CalculateOffset(schema, row, i);
    r := BytesAt(schema[i].typ, row, offset);
  }

  /** The bytes of one field. */
  function FieldBytes(schema: Schema, row: seq<byte>, i: nat): Result<seq<byte>>
    requires i < |schema|
  {
    BytesAt(schema[i].typ, row, OffsetOf(schema, row, i))
  }

  /** The bytes of the value that starts at `offset`. */
  function BytesAt(t: Type, row: seq<byte>, offset: Result<nat>): Result<seq<byte>> {
    if offset.Err? || offset.value > |row| then Err
    else
      match SizeAt(t, row[offset.value..])
      case Err => Err
      case Ok(n) => if offset.value + n > |row| then Err else Ok(row[offset.value..offset.value + n])
  }

  function Join(a: Result<seq<byte>>, b: Result<seq<byte>>): Result<seq<byte>> {
    if a.Ok? && b.Ok? then Ok(a.value + b.value) else Err
  }

  function Projected(schema: Schema, row: seq<byte>, fields: seq<nat>, n: nat): Result<seq<byte>>
    requires n <= |fields| && forall j | 0 <= j < |fields| :: fields[j] < |schema|
  {
    if n == 0 then Ok([]) else Join(Projected(schema, row, fields, n - 1), FieldBytes(schema, row, fields[n - 1]))
  }

  lemma {:induction false} ProjectedErrs(schema: Schema, row: seq<byte>, fields: seq<nat>, i: nat, n: nat)
    requires i <= n <= |fields| && (forall j | 0 <= j < |fields| :: fields[j] < |schema|)
             && Projected(schema, row, fields, i).Err?
    ensures Projected(schema, row, fields, n).Err?
  {
    if i < n {
      ProjectedErrs(schema, row, fields, i, n - 1);
    }
  }

  /** The selected values, in selection order. */
  function Select<T>(s: seq<T>, fields: seq<nat>): (r: seq<T>)
    requires forall j | 0 <= j < |fields| :: fields[j] < |s|
    ensures |r| == |fields|
  {
    seq(|fields|, j requires 0 <= j < |fields| => s[fields[j]])
  }

  /** Projecting the bytes of a row is encoding the selected values. */
  lemma ProjectIsSelect(schema: Schema, values: seq<Value>, fields: seq<nat>)
    requires Fits(schema, values) && Encodable(values) && forall j | 0 <= j < |fields| :: fields[j] < |schema|
    ensures Fits(Select(schema, fields), Select(values, fields)) && Encodable(Select(values, fields))
    ensures Projected(schema, EncodeRow(values), fields, |fields|) == Ok(EncodeRow(Select(values, fields)))
  {
    var row, sel := EncodeRow(values), Select(values, fields);
    forall j | 0 <= j < |fields| ensures FieldBytes(schema, row, fields[j]) == Ok(Encode(sel[j]).value) {
      FieldIsEncoding(schema, values, fields[j]);
    }
    ProjectPrefix(schema, row, fields, sel, |fields|);
  }

  /** If each selected field of a row is an encoded value, they project to the encoded row. */
  lemma {:induction false} ProjectPrefix(schema: Schema, row: seq<byte>, fields: seq<nat>, sel: seq<Value>, n: nat)
    requires n <= |fields| == |sel| && Encodable(sel) && forall j | 0 <= j < |fields| :: fields[j] < |schema|
    requires forall j | 0 <= j < |fields| :: FieldBytes(schema, row, fields[j]) == Ok(Encode(sel[j]).value)
    ensures Projected(schema, row, fields, n) == Ok(Prefix(sel, n))
  {
    if n > 0 {
      ProjectPrefix(schema, row, fields, sel, n - 1);
    }
  }

  lemma FieldIsEncoding(schema: Schema, values: seq<Value>, i: nat)
    requires Fits(schema, values) && Encodable(values) && i < |values|
    ensures FieldBytes(schema, EncodeRow(values), i) == Ok(Encode(values[i]).value)
  {
    OffsetsArePrefixSums(schema, values, i);
    FieldAt(schema, values, i);
    FieldFrom(schema[i].typ, EncodeRow(values), OffsetOf(schema, EncodeRow(values), i), |Prefix(values, i)|,
              Encode(values[i]).value);
  }

  lemma FieldFrom(t: Type, row: seq<byte>, offset: Result<nat>, o: nat, e: seq<byte>)
    requires offset == Ok(o) && o + |e| <= |row| && SizeAt(t, row[o..]) == Ok(|e|) && row[o..o + |e|] == e
    ensures BytesAt(t, row, offset) == Ok(e)
  {
  }

  /** Field `j` of a projected row reads as the selected field of the original. */
  lemma ProjectedFieldReads(schema: Schema, values: seq<Value>, fields: seq<nat>, j: nat)
    requires Fits(schema, values) && Encodable(values) && j < |fields|
             && forall k | 0 <= k < |fields| :: fields[k] < |schema|
    ensures var row := EncodeRow(values);
            && Projected(schema, row, fields, |fields|).Ok?
            && GetValue(Select(schema, fields), Projected(schema, row, fields, |fields|).value, j)
                == GetValue(schema, row, fields[j])
  {
    ProjectIsSelect(schema, values, fields);
    RowRoundTrip(schema, values, fields[j]);
    RowRoundTrip(Select(schema, fields), Select(values, fields), j);
  }
}
