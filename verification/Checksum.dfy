/** The page checksum: the exclusive or of the page's 512 words, stored in the first one. */
module Checksum {
  import opened Bytes
  import opened LittleEndian

  const WORDS: nat := 512

  // ----- exclusive or of naturals

  function Xor(a: nat, b: nat): nat
    decreases a + b
  {
    if a == 0 && b == 0 then 0 else Bit(a, b) + 2 * Xor(a / 2, b / 2)
  }

  /** The lowest bit of the exclusive or. */
  function Bit(a: nat, b: nat): nat { if a % 2 == b % 2 then 0 else 1 }

  lemma {:induction false} XorZero(a: nat)
    ensures Xor(a, 0) == a && Xor(0, a) == a
  {
    if a > 0 {
      XorZero(a / 2);
    }
  }

  lemma {:induction false} XorSelf(a: nat, b: nat)
    ensures Xor(a, b) == 0 <==> a == b
    decreases a + b
  {
    if a > 0 || b > 0 {
      XorSelf(a / 2, b / 2);
    }
  }

  lemma {:induction false} XorCommutes(a: nat, b: nat)
    ensures Xor(a, b) == Xor(b, a)
    decreases a + b
  {
    if a > 0 || b > 0 {
      XorCommutes(a / 2, b / 2);
    }
  }

  lemma AssociatesInParity(a: nat, b: nat, c: nat)
    ensures Xor(Xor(a, b), c) % 2 == Xor(a, Xor(b, c)) % 2
  {
    var x, y := Xor(a, b), Xor(b, c);
    XorParity(a, b, x);
    XorParity(b, c, y);
    XorParity(x, c, Xor(x, c));
    XorParity(a, y, Xor(a, y));
  }

  lemma XorParity(a: nat, b: nat, x: nat)
    requires x == Xor(a, b)
    ensures x % 2 == Bit(a, b)
  {
    LowBit(Bit(a, b), Xor(a / 2, b / 2));
  }

  lemma LowBit(bit: nat, half: nat)
    requires bit < 2
    ensures (bit + 2 * half) % 2 == bit && (bit + 2 * half) / 2 == half
  {
  }

  lemma AssociatesInHalves(a: nat, b: nat, c: nat)
    ensures Xor(Xor(a, b), c) / 2 == Xor(Xor(a / 2, b / 2), c / 2)
    ensures Xor(a, Xor(b, c)) / 2 == Xor(a / 2, Xor(b / 2, c / 2))
  {
    XorHalf(a, b, Xor(a, b));
    XorHalf(b, c, Xor(b, c));
    XorHalf(Xor(a, b), c, Xor(Xor(a, b), c));
    XorHalf(a, Xor(b, c), Xor(a, Xor(b, c)));
  }

  lemma XorHalf(a: nat, b: nat, x: nat)
    requires x == Xor(a, b)
    ensures x / 2 == Xor(a / 2, b / 2)
  {
    LowBit(Bit(a, b), Xor(a / 2, b / 2));
  }

  lemma {:induction false} XorAssociates(a: nat, b: nat, c: nat)
    ensures Xor(Xor(a, b), c) == Xor(a, Xor(b, c))
    decreases a + b + c
  {
    if a > 0 || b > 0 || c > 0 {
      XorAssociates(a / 2, b / 2, c / 2);
      AssociatesInParity(a, b, c);
      AssociatesInHalves(a, b, c);
      SameHalves(Xor(Xor(a, b), c), Xor(a, Xor(b, c)));
    }
  }

  lemma SameHalves(m: nat, n: nat)
    requires m / 2 == n / 2 && m % 2 == n % 2
    ensures m == n
  {
  }

  /** (a ^ b) ^ (c ^ d) == (a ^ c) ^ (b ^ d) */
  lemma XorSwaps(a: nat, b: nat, c: nat, d: nat)
    ensures Xor(Xor(a, b), Xor(c, d)) == Xor(Xor(a, c), Xor(b, d))
  {
    XorAssociates(a, b, Xor(c, d));
    XorAssociates(b, c, d);
    XorCommutes(b, c);
    XorAssociates(c, b, d);
    XorAssociates(a, c, Xor(b, d));
  }

  lemma {:induction false} XorBound(a: nat, b: nat, n: nat)
    requires a < Pow2(n) && b < Pow2(n)
    ensures Xor(a, b) < Pow2(n)
    decreases n
  {
    if n > 0 {
      XorBound(a / 2, b / 2, n - 1);
    }
  }

  lemma {:induction false} EightBitsPerByte(n: nat)
    ensures Pow2(8 * n) == Pow256(n)
  {
    if n > 0 {
      EightBitsPerByte(n - 1);
      var m := 8 * n;
      assert Pow2(m) == 2 * Pow2(m - 1) == 4 * Pow2(m - 2) == 8 * Pow2(m - 3) == 16 * Pow2(m - 4);
      assert Pow2(m - 4) == 2 * Pow2(m - 5) == 4 * Pow2(m - 6) == 8 * Pow2(m - 7) == 16 * Pow2(m - 8);
    }
  }

  /** The exclusive or of two `n`-byte integers has `n` bytes. */
  lemma XorBytes(a: nat, b: nat, n: nat)
    requires a < Pow256(n) && b < Pow256(n)
    ensures Xor(a, b) < Pow256(n)
  {
    EightBitsPerByte(n);
    XorBound(a, b, 8 * n);
  }

  /** Bit `i` of a number. */
  ghost function BitAt(a: nat, i: nat): nat { if i == 0 then a % 2 else BitAt(a / 2, i - 1) }

  /** Different numbers differ in some bit. */
  lemma {:induction false} BitsDetermine(a: nat, b: nat)
    requires forall i: nat :: BitAt(a, i) == BitAt(b, i)
    ensures a == b
    decreases a + b
  {
    if a > 0 || b > 0 {
      assert BitAt(a, 0) == BitAt(b, 0);
      forall i: nat ensures BitAt(a / 2, i) == BitAt(b / 2, i) {
        assert BitAt(a, i + 1) == BitAt(b, i + 1);
      }
      BitsDetermine(a / 2, b / 2);
      SameHalves(a, b);
    }
  }

  /** A bit of the exclusive or is set exactly if the two bits differ. */
  lemma {:induction false} XorBits(a: nat, b: nat, i: nat)
    ensures BitAt(Xor(a, b), i) == if BitAt(a, i) == BitAt(b, i) then 0 else 1
  {
    if i == 0 {
      XorParity(a, b, Xor(a, b));
    } else {
      XorHalf(a, b, Xor(a, b));
      XorBits(a / 2, b / 2, i - 1);
    }
  }

  // ----- words of a page

  ghost function Word(s: seq<byte>, i: nat): nat
    requires |s| == PAGE_SIZE && i < WORDS
  {
    LeValue(s[8 * i..8 * i + 8])
  }

  /** The exclusive or of the first `n` words. */
  ghost function Sum(s: seq<byte>, n: nat): nat
    requires |s| == PAGE_SIZE && n <= WORDS
  {
    if n == 0 then 0 else Xor(Sum(s, n - 1), Word(s, n - 1))
  }

  ghost predicate ValidChecksum(s: seq<byte>)
    requires |s| == PAGE_SIZE
  {
    Sum(s, WORDS) == 0
  }

  lemma {:induction false} SumBound(s: seq<byte>, n: nat)
    requires |s| == PAGE_SIZE && n <= WORDS
    ensures Sum(s, n) < Pow256(8)
  {
    if n > 0 {
      SumBound(s, n - 1);
      LeBound(s[8 * (n - 1)..8 * (n - 1) + 8]);
      XorBytes(Sum(s, n - 1), Word(s, n - 1), 8);
    }
  }

  method Checksum64(p: array<byte>) returns (res: nat)
    requires p.Length == PAGE_SIZE
    ensures res == Sum(p[..], WORDS) && res < Pow256(8)
  {
    res := 0;
    var i := 0;
    while i < PAGE_SIZE
      invariant i % 8 == 0 && i <= PAGE_SIZE && res == Sum(p[..], i / 8)
    {
      var chunk := LeValue(p[i..i + 8]);
      assert p[..][i..i + 8] == p[i..i + 8];
      res := Xor(res, chunk);
      i := i + 8;
    }
    SumBound(p[..], WORDS);
  }

  // ----- changes between two images

  /** The exclusive or of the differences of the first `n` words. */
  ghost function Difference(s: seq<byte>, r: seq<byte>, n: nat): nat
    requires |s| == |r| == PAGE_SIZE && n <= WORDS
  {
    if n == 0 then 0 else Xor(Difference(s, r, n - 1), Xor(Word(s, n - 1), Word(r, n - 1)))
  }

  lemma {:induction false} SumsDiffer(s: seq<byte>, r: seq<byte>, n: nat)
    requires |s| == |r| == PAGE_SIZE && n <= WORDS
    ensures Xor(Sum(s, n), Sum(r, n)) == Difference(s, r, n)
  {
    if n > 0 {
      SumsDiffer(s, r, n - 1);
      XorSwaps(Sum(s, n - 1), Word(s, n - 1), Sum(r, n - 1), Word(r, n - 1));
    }
  }

  /** A change of a valid page goes unnoticed exactly when its word differences cancel. */
  lemma UndetectedIff(s: seq<byte>, r: seq<byte>)
    requires |s| == |r| == PAGE_SIZE && ValidChecksum(s)
    ensures ValidChecksum(r) <==> Difference(s, r, WORDS) == 0
  {
    SumsDiffer(s, r, WORDS);
    XorZero(Sum(r, WORDS));
  }

  /** Words outside `k` are the same bytes in both images. */
  ghost predicate OnlyWord(s: seq<byte>, r: seq<byte>, k: nat)
    requires |s| == |r| == PAGE_SIZE
  {
    k < WORDS && forall i | 0 <= i < PAGE_SIZE && !(8 * k <= i < 8 * k + 8) :: r[i] == s[i]
  }

  lemma {:induction false} OneWordDifference(s: seq<byte>, r: seq<byte>, k: nat, n: nat)
    requires |s| == |r| == PAGE_SIZE && OnlyWord(s, r, k) && n <= WORDS
    ensures Difference(s, r, n) == if n <= k then 0 else Xor(Word(s, k), Word(r, k))
  {
    if n > 0 {
      OneWordDifference(s, r, k, n - 1);
      if n - 1 != k {
        assert s[8 * (n - 1)..8 * (n - 1) + 8] == r[8 * (n - 1)..8 * (n - 1) + 8];
        XorSelf(Word(s, n - 1), Word(r, n - 1));
      }
      XorZero(Xor(Word(s, k), Word(r, k)));
    }
  }

  /** Any change confined to one word is detected. */
  lemma OneWordChangeIsDetected(s: seq<byte>, r: seq<byte>, k: nat)
    requires |s| == |r| == PAGE_SIZE && ValidChecksum(s) && k < 512
    requires forall i | 0 <= i < PAGE_SIZE && i / 8 != k :: r[i] == s[i]
    ensures ValidChecksum(r) <==> r == s
  {
    assert OnlyWord(s, r, k);
    UndetectedIff(s, r);
    OneWordDifference(s, r, k, WORDS);
    XorSelf(Word(s, k), Word(r, k));
    if Word(s, k) == Word(r, k) {
      LeInjective(s[8 * k..8 * k + 8], r[8 * k..8 * k + 8]);
      assert forall i | 8 * k <= i < 8 * k + 8 ::
            s[i] == s[8 * k..8 * k + 8][i - 8 * k] && r[i] == r[8 * k..8 * k + 8][i - 8 * k];
      assert r == s;
    }
  }

  /** Updating the checksum makes any page valid and leaves all but its first word alone. */
  method UpdateChecksum(p: array<byte>)
    requires p.Length == PAGE_SIZE
    modifies p
    ensures ValidChecksum(p[..]) && p[8..] == old(p[8..])
  {
    CopyInto(p, 0, LeBytes(0, 8));
    ghost var s := p[..];
    var sum := Checksum64(p);
    CopyInto(p, 0, LeBytes(sum, 8));
    StoredSumIsValid(s, p[..], sum);
  }

  lemma StoredSumIsValid(s: seq<byte>, r: seq<byte>, sum: nat)
    requires |s| == PAGE_SIZE && s[..8] == LeBytes(0, 8) && sum == Sum(s, WORDS) < Pow256(8)
    requires r == Splice(s, 0, LeBytes(sum, 8))
    ensures ValidChecksum(r)
  {
    LeRoundTrip(0, 8);
    LeRoundTrip(sum, 8);
    assert s[0..8] == LeBytes(0, 8) && r[0..8] == LeBytes(sum, 8);
    OneWordDifference(s, r, 0, WORDS);
    SumsDiffer(s, r, WORDS);
    XorZero(sum);
    assert Xor(sum, Sum(r, WORDS)) == sum;
    XorCancels(sum, Sum(r, WORDS));
  }

  lemma XorCancels(a: nat, b: nat)
    requires Xor(a, b) == a
    ensures b == 0
  {
    XorAssociates(a, a, b);
    XorSelf(a, a);
    XorZero(b);
  }
}
