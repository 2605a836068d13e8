/** Little-endian integers of any width. */
module LittleEndian {
  import opened Bytes

  function Pow256(n: nat): (p: nat)
    ensures p > 0
  {
    if n == 0 then 1 else 256 * Pow256(n - 1)
  }

  function Pow2(n: nat): (p: nat)
    ensures p > 0
  {
    if n == 0 then 1 else 2 * Pow2(n - 1)
  }

  lemma Widths()
    ensures Pow256(2) == 0x1_0000 && Pow256(4) == 0x1_0000_0000 && Pow256(8) == 0x1_0000_0000_0000_0000
  {
  }

  function LeBytes(v: nat, n: nat): (b: seq<byte>)
    ensures |b| == n
  {
    if n == 0 then [] else [v % 256] + LeBytes(v / 256, n - 1)
  }

  function LeValue(b: seq<byte>): nat {
    if b == [] then 0 else (b[0] as int) + 256 * LeValue(b[1..])
  }

  lemma {:induction false} LeRoundTrip(v: nat, n: nat)
    requires v < Pow256(n)
    ensures LeValue(LeBytes(v, n)) == v
  {
    if n > 0 {
      assert v / 256 < Pow256(n - 1);
      LeRoundTrip(v / 256, n - 1);
      assert LeBytes(v, n)[1..] == LeBytes(v / 256, n - 1);
    }
  }

  lemma {:induction false} LeBound(b: seq<byte>)
    ensures LeValue(b) < Pow256(|b|)
  {
    if b != [] {
      LeBound(b[1..]);
    }
  }

  /** Byte strings of one length are determined by their value. */
  lemma {:induction false} LeInjective(a: seq<byte>, b: seq<byte>)
    requires |a| == |b| && LeValue(a) == LeValue(b)
    ensures a == b
  {
    if a != [] {
      assert a[0] as int == LeValue(a) % 256 && b[0] as int == LeValue(b) % 256;
      LeInjective(a[1..], b[1..]);
      assert a == [a[0]] + a[1..] && b == [b[0]] + b[1..];
    }
  }
}
