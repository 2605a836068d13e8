/** Numbers and strings as text: how literals are read and how values are written. */
module Literals {
  import opened Bytes
  import opened Wrappers
  import opened RowCodec

  const ZERO: byte := 48

  const MINUS: byte := 45

  // ----- numbers

  predicate IsDigit(c: byte) { ZERO <= c < ZERO + 10 }

  function DigitValue(c: byte): nat
    requires IsDigit(c)
  {
    (c as int) - (ZERO as int)
  }

  /** At least one digit, and nothing else. */
  predicate AllDigits(text: seq<byte>) { text != [] && forall i | 0 <= i < |text| :: IsDigit(text[i]) }

  /** The value of a string of digits. */
  function Decimal(digits: seq<byte>): nat
    requires forall i | 0 <= i < |digits| :: IsDigit(digits[i])
  {
    if digits == [] then 0
    else 10 * Decimal(digits[..|digits| - 1]) + DigitValue(digits[|digits| - 1])
  }

  /** `from_chars`, up to the end of the text: digits, for signed types behind a minus if there
      is one. */
  function ParseInt(text: seq<byte>, signed: bool): Option<int> {
    if signed && text != [] && text[0] == MINUS then
      if AllDigits(text[1..]) then Some(0 - Decimal(text[1..])) else None
    else if AllDigits(text) then Some(Decimal(text))
    else None
  }

  /** A value of its type, or an error if there is none. */
  function Checked(v: Value): Result<Value> { if InRange(v) then Ok(v) else Err }

  /** `from_string`, for all types but doubles. */
  function Parse(t: Type, text: seq<byte>): Result<Value>
    requires t != TypeF64
  {
    match t
    case TypeString => if |text| >= 0x1_0000 then Err else Ok(Str(text))
    case TypeI32 => var n := ParseInt(text, true); if n.None? then Err else Checked(I32(n.value))
    case TypeU32 => var n := ParseInt(text, false); if n.None? then Err else Checked(U32(n.value))
    case TypeI64 => var n := ParseInt(text, true); if n.None? then Err else Checked(I64(n.value))
  }

  // ----- values as text

  function Numeral(n: nat): (d: seq<byte>)
    ensures AllDigits(d)
  {
    if n < 10 then [ZERO + n] else Numeral(n / 10) + [ZERO + n % 10]
  }

  function Format(n: int): seq<byte> { if n < 0 then [MINUS] + Numeral(-n) else Numeral(n) }

  /** `to_string`, for all types but doubles. */
  function ToText(v: Value): seq<byte>
    requires !v.F64?
  {
    match v
    case I32(i) => Format(i)
    case Str(s) => s
    case U32(u) => Format(u)
    case I64(l) => Format(l)
  }

  lemma {:induction false} NumeralReads(n: nat)
    ensures Decimal(Numeral(n)) == n
  {
    if n >= 10 {
      NumeralReads(n / 10);
      assert Numeral(n)[..|Numeral(n)| - 1] == Numeral(n / 10);
    }
  }

  lemma FormatReads(n: int, signed: bool)
    requires n >= 0 || signed
    ensures ParseInt(Format(n), signed) == Some(n)
  {
    if n < 0 {
      NumeralReads(-n);
      assert Format(n)[1..] == Numeral(-n);
    } else {
      NumeralReads(n);
      assert IsDigit(Numeral(n)[0]);
    }
  }

  /** Text is ASCII: "-407" reads as that number, for signed types only. */
  lemma TextIsAscii()
    ensures Format(-407) == [45, 52, 48, 55] && Format(0) == [48]
    ensures ParseInt([45, 52, 48, 55], true) == Some(-407) && ParseInt([45, 52, 48, 55], false) == None
    ensures Parse(TypeI32, [45, 52, 48, 55]) == Ok(I32(-407)) && Parse(TypeI64, [45, 52, 48, 55]) == Ok(I64(-407))
    ensures Parse(TypeU32, [45, 52, 48, 55]) == Err
  {
    assert Numeral(4) == [52] && Numeral(40) == [52, 48] && Numeral(407) == [52, 48, 55];
    FormatReads(-407, true);
    assert !IsDigit(45);
  }

  /** Text with a minus is no unsigned number, not even "-0". */
  lemma UnsignedHasNoMinus(text: seq<byte>)
    requires text != [] && text[0] == 45
    ensures Parse(TypeU32, text) == Err
  {
    assert !IsDigit(text[0]);
  }

  /** Every value reads back from its text; only a string of more than 65535 bytes does not. */
  lemma TextRoundTrip(v: Value)
    requires InRange(v) && !v.F64?
    ensures Parse(TypeOf(v), ToText(v)) == if Encode(v).Ok? then Ok(v) else Err
  {
    match v {
      case I32(i) => FormatReads(i, true);
      case U32(u) => FormatReads(u, false);
      case I64(l) => FormatReads(l, true);
      case Str(_) =>
    }
  }

  /** What is read is a value of the type that can be stored. */
  lemma ParsedIsStorable(t: Type, text: seq<byte>)
    requires t != TypeF64 && Parse(t, text).Ok?
    ensures var v := Parse(t, text).value; InRange(v) && TypeOf(v) == t && Encode(v).Ok?
  {
  }

  /** `d` is the numeral of `n` behind `k` zeros. */
  ghost predicate DenotesFrom(d: seq<byte>, n: nat, k: nat) {
    k < |d| && (forall i | 0 <= i < k :: d[i] == ZERO) && d[k..] == Numeral(n)
  }

  /** `d` is the numeral of `n`, zeros in front aside. */
  ghost predicate Denotes(d: seq<byte>, n: nat) { exists k: nat :: DenotesFrom(d, n, k) }

  /** Digits are read as a number exactly if they are its numeral, zeros in front aside. */
  lemma {:induction false} DecimalIff(d: seq<byte>, n: nat)
    requires AllDigits(d)
    ensures Decimal(d) == n <==> Denotes(d, n)
  {
    DecimalDenotes(d);
    if Denotes(d, n) {
      var k: nat :| DenotesFrom(d, n, k);
      ZerosInFront(d, k);
      NumeralReads(n);
    }
  }

  /** Text reads as an integer exactly if it is a numeral, or for signed types a minus and a
      numeral. */
  lemma ParseIntIff(text: seq<byte>, signed: bool, n: int)
    ensures ParseInt(text, signed) == Some(n) <==>
              || (n >= 0 && Denotes(text, n))
              || (n <= 0 && signed && text != [] && text[0] == MINUS && Denotes(text[1..], -n))
  {
    if n >= 0 {
      DenotesDigits(text, n);
      if AllDigits(text) {
        DecimalIff(text, n);
      }
    }
    if n <= 0 && text != [] {
      DenotesDigits(text[1..], -n);
      if AllDigits(text[1..]) {
        DecimalIff(text[1..], -n);
      }
    }
  }

  lemma DenotesDigits(d: seq<byte>, n: nat)
    ensures Denotes(d, n) ==> AllDigits(d)
  {
    if Denotes(d, n) {
      var k: nat :| DenotesFrom(d, n, k);
      forall i | 0 <= i < |d| ensures IsDigit(d[i]) {
        assert i >= k ==> d[i] == d[k..][i - k];
      }
    }
  }

  lemma {:induction false} ZerosInFront(d: seq<byte>, k: nat)
    requires AllDigits(d) && k < |d| && forall i | 0 <= i < k :: d[i] == ZERO
    ensures Decimal(d) == Decimal(d[k..])
  {
    var front := d[..|d| - 1];
    assert d[k..][..|d[k..]| - 1] == front[k..];
    if k < |d| - 1 {
      ZerosInFront(front, k);
    } else {
      AllZeros(front);
    }
  }

  lemma {:induction false} AllZeros(d: seq<byte>)
    requires forall i | 0 <= i < |d| :: d[i] == ZERO
    ensures Decimal(d) == 0
  {
    if d != [] {
      AllZeros(d[..|d| - 1]);
    }
  }

  lemma {:induction false} DecimalDenotes(d: seq<byte>)
    requires AllDigits(d)
    ensures Denotes(d, Decimal(d))
  {
    var front, last := d[..|d| - 1], d[|d| - 1];
    assert d == front + [last];
    if Decimal(front) > 0 {
      assert front != [];
      DecimalDenotes(front);
      OneMoreDigit(front, Decimal(front), last);
    } else {
      NoValueNoDigits(front);
      assert d[|d| - 1..] == [last] == Numeral(DigitValue(last));
      assert DenotesFrom(d, Decimal(d), |d| - 1);
    }
  }

  lemma NumeralEndsWith(n: nat, c: byte)
    requires n > 0 && IsDigit(c)
    ensures Numeral(10 * n + DigitValue(c)) == Numeral(n) + [c]
  {
    var m := 10 * n + DigitValue(c);
    assert m / 10 == n && m % 10 == DigitValue(c);
  }

  lemma OneMoreDigit(d: seq<byte>, n: nat, c: byte)
    requires Denotes(d, n) && n > 0 && IsDigit(c)
    ensures Denotes(d + [c], 10 * n + DigitValue(c))
  {
    var k: nat :| DenotesFrom(d, n, k);
    var m := 10 * n + DigitValue(c);
    NumeralEndsWith(n, c);
    assert (d + [c])[k..] == d[k..] + [c];
    assert DenotesFrom(d + [c], m, k);
  }

  lemma {:induction false} NoValueNoDigits(d: seq<byte>)
    requires (forall i | 0 <= i < |d| :: IsDigit(d[i])) && Decimal(d) == 0
    ensures forall i | 0 <= i < |d| :: d[i] == ZERO
  {
    if d != [] {
      NoValueNoDigits(d[..|d| - 1]);
    }
  }
}
