/** Bytes and the fixed-width little-endian fields that the storage engine packs into them. */
module Bytes {

  type byte = b: int | 0 <= b < 256

  /** Size of every page of the database, in bytes. */
  const PAGE_SIZE: nat := 4096

  /** The 16-bit field stored at `at`. */
  function GetU16(s: seq<byte>, at: nat): (v: nat)
    requires at + 2 <= |s|
    ensures v < 0x1_0000
  {
    (s[at] as int) + 256 * (s[at + 1] as int)
  }

  /** Storing a 16-bit field: it reads back, and no other byte changes. */
  function PutU16(s: seq<byte>, at: nat, v: nat): (r: seq<byte>)
    requires at + 2 <= |s| && v < 0x1_0000
    ensures |r| == |s| && GetU16(r, at) == v
    ensures forall i | 0 <= i < |s| && i != at && i != at + 1 :: r[i] == s[i]
  {
    s[at := v % 256][at + 1 := v / 256]
  }

  method WriteU16(p: array<byte>, at: nat, v: nat)
    requires at + 2 <= p.Length && v < 0x1_0000
    modifies p
    ensures p[..] == PutU16(old(p[..]), at, v)
  {
    p[at] := v % 256;
    p[at + 1] := v / 256;
  }

  /** The 32-bit field stored at `at`. */
  function GetU32(s: seq<byte>, at: nat): (v: nat)
    requires at + 4 <= |s|
    ensures v < 0x1_0000_0000
  {
    GetU16(s, at) + 0x1_0000 * GetU16(s, at + 2)
  }

  /** Storing a 32-bit field: it reads back, and no other byte changes. */
  function PutU32(s: seq<byte>, at: nat, v: nat): (r: seq<byte>)
    requires at + 4 <= |s| && v < 0x1_0000_0000
    ensures |r| == |s| && GetU32(r, at) == v
    ensures forall i | 0 <= i < |s| && !(at <= i < at + 4) :: r[i] == s[i]
  {
    PutU16(PutU16(s, at, v % 0x1_0000), at + 2, v / 0x1_0000)
  }

  method WriteU32(p: array<byte>, at: nat, v: nat)
    requires at + 4 <= p.Length && v < 0x1_0000_0000
    modifies p
    ensures p[..] == PutU32(old(p[..]), at, v)
  {
    WriteU16(p, at, v % 0x1_0000);
    WriteU16(p, at + 2, v / 0x1_0000);
  }

  /** Overwriting the bytes from `at` on with `data`. */
  function Splice(s: seq<byte>, at: nat, data: seq<byte>): (r: seq<byte>)
    requires at + |data| <= |s|
    ensures |r| == |s| && r[at..at + |data|] == data
    ensures forall i | 0 <= i < |s| && !(at <= i < at + |data|) :: r[i] == s[i]
  {
    s[..at] + data + s[at + |data|..]
  }

  /** The standard library's copy of a byte range into a buffer. */
  method CopyInto(p: array<byte>, at: nat, data: seq<byte>)
    requires at + |data| <= p.Length
    modifies p
    ensures p[..] == Splice(old(p[..]), at, data)
  {
    forall i | 0 <= i < |data| {
      p[at + i] := data[i];
    }
  }

  /** The C library's `memmove`: source and destination may overlap. */
  method MemMove(p: array<byte>, dst: nat, src: nat, n: nat)
    requires dst + n <= p.Length && src + n <= p.Length
    modifies p
    ensures p[..] == Splice(old(p[..]), dst, old(p[src..src + n]))
  {
    forall i | 0 <= i < n {
      p[dst + i] := p[src + i];
    }
  }
}
