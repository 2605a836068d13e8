/** WHERE conditions, evaluated on the bytes of a row and on its typed values. */
module Conditions {
  import opened Bytes
  import opened Wrappers
  import opened RowCodec
  import opened Doubles
  import opened Literals

  datatype CompareOp = EQ | NEQ | LT | GT | LE | GE

  datatype LogicalOp = AND | OR

  datatype Operand = ColumnRef(name: seq<byte>) | Literal(text: seq<byte>)

  datatype Condition =
    | Comparison(left: Operand, op: CompareOp, right: Operand)
    | Logical(first: Condition, lop: LogicalOp, second: Condition)

  /** The library's reading of doubles, which gives the bytes that represent one. */
  datatype Lib = Lib(parseDouble: seq<byte> -> Result<seq<byte>>)

  // ----- name resolution

  /** The first column with this name. */
  function ColumnIndex(schema: Schema, name: seq<byte>, from: nat): (r: Option<nat>)
    requires from <= |schema|
    ensures r.Some? ==> from <= r.value < |schema| && schema[r.value].name == name
    ensures r.Some? ==> forall j | from <= j < r.value :: schema[j].name != name
    ensures r.None? ==> forall j | from <= j < |schema| :: schema[j].name != name
    decreases |schema| - from
  {
    if from == |schema| then None
    else if schema[from].name == name then Some(from)
    else ColumnIndex(schema, name, from + 1)
  }

  // ----- comparing values

  function LexLess(a: seq<byte>, b: seq<byte>): bool {
    if b == [] then false
    else if a == [] then true
    else if a[0] != b[0] then a[0] < b[0]
    else LexLess(a[1..], b[1..])
  }

  /** The six operators, from equality and a strict order. */
  function ByOrder(op: CompareOp, eq: bool, less: bool): bool {
    match op
    case EQ => eq
    case NEQ => !eq
    case LT => less
    case GT => !less && !eq
    case LE => less || eq
    case GE => !less
  }

  /** What is not a number is unequal to everything, and in no order with anything. */
  function CompareDoubles(op: CompareOp, a: seq<byte>, b: seq<byte>): bool {
    if IsNan(a) || IsNan(b) then op == NEQ else ByOrder(op, Number(a) == Number(b), Number(a) < Number(b))
  }

  /** Values of different types cannot be compared. */
  function Compare(a: Value, op: CompareOp, b: Value): Result<bool> {
    match (a, b)
    case (I32(x), I32(y)) => Ok(ByOrder(op, x == y, x < y))
    case (U32(x), U32(y)) => Ok(ByOrder(op, x == y, x < y))
    case (I64(x), I64(y)) => Ok(ByOrder(op, x == y, x < y))
    case (Str(x), Str(y)) => Ok(ByOrder(op, x == y, LexLess(x, y)))
    case (F64(x), F64(y)) => Ok(CompareDoubles(op, x, y))
    case _ => Err
  }

  /** `LexLess` is a strict total order, so the six operators on strings are consistent. */
  lemma {:induction false} LexTotal(a: seq<byte>, b: seq<byte>)
    ensures (LexLess(a, b) <==> a != b && !LexLess(b, a)) && !LexLess(a, a)
  {
    if a != [] {
      LexTotal(a[1..], a[1..]);
    }
    if a != [] && b != [] && a[0] == b[0] {
      LexTotal(a[1..], b[1..]);
      assert a == [a[0]] + a[1..] && b == [b[0]] + b[1..];
    }
  }

  /** What the six operators mean on integers. */
  ghost predicate Relation(op: CompareOp, x: int, y: int) {
    match op
    case EQ => x == y
    case NEQ => x != y
    case LT => x < y
    case GT => x > y
    case LE => x <= y
    case GE => x >= y
  }

  /** Integers of one type are compared as numbers, and so are doubles that are numbers. */
  lemma NumbersCompare(op: CompareOp, x: int, y: int, a: seq<byte>, b: seq<byte>)
    ensures Compare(I32(x), op, I32(y)) == Ok(Relation(op, x, y))
    ensures Compare(U32(x), op, U32(y)) == Ok(Relation(op, x, y))
    ensures Compare(I64(x), op, I64(y)) == Ok(Relation(op, x, y))
    ensures !IsNan(a) && !IsNan(b) ==> Compare(F64(a), op, F64(b)) == Ok(Relation(op, Number(a), Number(b)))
    ensures IsNan(a) || IsNan(b) ==> Compare(F64(a), op, F64(b)) == Ok(op == NEQ)
  {
    match op {
      case EQ | NEQ | LT | GT | LE | GE =>
    }
  }

  /** `i` is the first place where `a` and `b` differ, and `a` ends there or has the smaller
      byte. */
  ghost predicate DropsAt(a: seq<byte>, b: seq<byte>, i: nat) {
    && i <= |a| && i < |b|
    && a[..i] == b[..i]
    && (i == |a| || a[i] < b[i])
  }

  /** Alphabetical order. */
  ghost predicate Precedes(a: seq<byte>, b: seq<byte>) { exists i: nat :: DropsAt(a, b, i) }

  lemma {:induction false} LexLessIff(a: seq<byte>, b: seq<byte>)
    ensures LexLess(a, b) <==> Precedes(a, b)
  {
    if a == [] || b == [] || a[0] != b[0] {
      assert LexLess(a, b) ==> DropsAt(a, b, 0);
      forall i: nat | DropsAt(a, b, i) ensures i == 0 { SameFront(a, b, i); }
    } else {
      LexLessIff(a[1..], b[1..]);
      forall i: nat ensures DropsAt(a, b, i + 1) <==> DropsAt(a[1..], b[1..], i) { DropsNext(a, b, i); }
      assert !DropsAt(a, b, 0);
      if Precedes(a, b) {
        var i: nat :| DropsAt(a, b, i);
        assert DropsAt(a[1..], b[1..], i - 1);
      }
      if Precedes(a[1..], b[1..]) {
        var i: nat :| DropsAt(a[1..], b[1..], i);
        assert DropsAt(a, b, i + 1);
      }
    }
  }

  lemma SameFront(a: seq<byte>, b: seq<byte>, i: nat)
    requires DropsAt(a, b, i)
    ensures i > 0 ==> a != [] && b != [] && a[0] == b[0]
  {
    if i > 0 {
      assert a[0] == a[..i][0] && b[0] == b[..i][0];
    }
  }

  lemma DropsNext(a: seq<byte>, b: seq<byte>, i: nat)
    requires a != [] && b != [] && a[0] == b[0]
    ensures DropsAt(a, b, i + 1) <==> DropsAt(a[1..], b[1..], i)
  {
    if i < |a| && i < |b| {
      assert a[..i + 1] == [a[0]] + a[1..][..i] && b[..i + 1] == [b[0]] + b[1..][..i];
      assert a[1..][..i] == a[..i + 1][1..] && b[1..][..i] == b[..i + 1][1..];
    }
  }

  /** What the six operators mean on strings. */
  lemma StringsCompare(op: CompareOp, a: seq<byte>, b: seq<byte>)
    ensures Compare(Str(a), op, Str(b)) == Ok(match op
      case EQ => a == b
      case NEQ => a != b
      case LT => Precedes(a, b)
      case GT => Precedes(b, a)
      case LE => a == b || Precedes(a, b)
      case GE => a == b || Precedes(b, a))
  {
    LexTotal(a, b);
    LexLessIff(a, b);
    LexLessIff(b, a);
  }

  /** Comparing fails exactly for values of different types. */
  lemma ComparableIff(a: Value, op: CompareOp, b: Value)
    ensures Compare(a, op, b).Ok? <==> TypeOf(a) == TypeOf(b)
  {
  }

  function Negation(op: CompareOp): CompareOp {
    match op
    case EQ => NEQ
    case NEQ => EQ
    case LT => GE
    case GT => LE
    case LE => GT
    case GE => LT
  }

  /** Whether a value is a double that is not a number. */
  predicate NotANumber(v: Value) { v.F64? && IsNan(v.bits) }

  /** The operators negate each other in pairs, exactly if both values are in an order. */
  lemma NegationIff(a: Value, b: Value)
    requires TypeOf(a) == TypeOf(b)
    ensures (forall op :: Compare(a, Negation(op), b).value != Compare(a, op, b).value) <==>
              !NotANumber(a) && !NotANumber(b)
  {
    if a.Str? {
      LexTotal(a.chars, b.chars);
    }
    if NotANumber(a) || NotANumber(b) {
      assert Compare(a, Negation(LT), b).value == Compare(a, LT, b).value;
    }
  }

  // ----- evaluation on bytes, as the selection operator does it

  /** A literal takes the type of the column it is compared with; two literals are strings. */
  function OperandType(schema: Schema, left: Operand, right: Operand): Result<Type> {
    if left.ColumnRef? then
      match ColumnIndex(schema, left.name, 0)
      case None => Err
      case Some(i) => Ok(schema[i].typ)
    else if right.ColumnRef? then
      match ColumnIndex(schema, right.name, 0)
      case None => Err
      case Some(i) => Ok(schema[i].typ)
    else Ok(TypeString)
  }

  /** A literal as a value of a type. */
  function ReadLiteral(lib: Lib, t: Type, text: seq<byte>): Result<Value> {
    if t == TypeF64 then
      match lib.parseDouble(text)
      case Err => Err
      case Ok(bits) => Ok(F64(bits))
    else Parse(t, text)
  }

  function ResolveBytes(lib: Lib, schema: Schema, o: Operand, t: Type, row: seq<byte>): Result<Value> {
    match o
    case Literal(text) => ReadLiteral(lib, t, text)
    case ColumnRef(name) =>
      match ColumnIndex(schema, name, 0)
      case None => Err
      case Some(i) => GetValue(schema, row, i)
  }

  function EvalBytes(lib: Lib, schema: Schema, c: Condition, row: seq<byte>): Result<bool> {
    match c
    case Comparison(left, op, right) =>
      (match OperandType(schema, left, right)
       case Err => Err
       case Ok(t) =>
         match ResolveBytes(lib, schema, left, t, row)
         case Err => Err
         case Ok(a) =>
           match ResolveBytes(lib, schema, right, t, row)
           case Err => Err
           case Ok(b) => Compare(a, op, b))
    case Logical(first, lop, second) =>
      match EvalBytes(lib, schema, first, row)
      case Err => Err
      case Ok(l) =>
        if lop == AND && !l then Ok(false)
        else if lop == OR && l then Ok(true)
        else EvalBytes(lib, schema, second, row)
  }

  // ----- meaning on typed values

  function ResolveValue(lib: Lib, schema: Schema, o: Operand, t: Type, values: seq<Value>): Result<Value>
    requires |values| == |schema|
  {
    match o
    case Literal(text) => ReadLiteral(lib, t, text)
    case ColumnRef(name) =>
      match ColumnIndex(schema, name, 0)
      case None => Err
      case Some(i) => Ok(values[i])
  }

  /** The truth value of a comparison: an error if a name is unknown, a literal does not
      parse, or the types differ. */
  function Truth(lib: Lib, schema: Schema, left: Operand, op: CompareOp, right: Operand,
                 values: seq<Value>): Result<bool>
    requires |values| == |schema|
  {
    match OperandType(schema, left, right)
    case Err => Err
    case Ok(t) =>
      var a, b := ResolveValue(lib, schema, left, t, values), ResolveValue(lib, schema, right, t, values);
      if a.Ok? && b.Ok? then Compare(a.value, op, b.value) else Err
  }

  /** Left-to-right Boolean evaluation: the second operand counts only if the first one does
      not decide. */
  function EvalValues(lib: Lib, schema: Schema, c: Condition, values: seq<Value>): Result<bool>
    requires |values| == |schema|
  {
    match c
    case Comparison(left, op, right) => Truth(lib, schema, left, op, right, values)
    case Logical(first, lop, second) =>
      var l := EvalValues(lib, schema, first, values);
      if l == Ok(lop == OR) || l.Err? then l else EvalValues(lib, schema, second, values)
  }

  /** A literal is read as the type of the column it stands beside, on either side, and keeps
      its side in the comparison. */
  lemma LiteralBesideColumn(lib: Lib, schema: Schema, name: seq<byte>, i: nat, op: CompareOp, text: seq<byte>,
                            values: seq<Value>)
    requires |values| == |schema| && ColumnIndex(schema, name, 0) == Some(i)
    ensures var v := ReadLiteral(lib, schema[i].typ, text);
            && Truth(lib, schema, ColumnRef(name), op, Literal(text), values)
                == (if v.Ok? then Compare(values[i], op, v.value) else Err)
            && Truth(lib, schema, Literal(text), op, ColumnRef(name), values)
                == (if v.Ok? then Compare(v.value, op, values[i]) else Err)
  {
  }

  /** Two columns are compared as they are, two literals as strings. */
  lemma SameKindOperands(lib: Lib, schema: Schema, a: seq<byte>, op: CompareOp, b: seq<byte>, values: seq<Value>)
    requires |values| == |schema|
    ensures var x, y := ReadLiteral(lib, TypeString, a), ReadLiteral(lib, TypeString, b);
            Truth(lib, schema, Literal(a), op, Literal(b), values)
                == if x.Ok? && y.Ok? then Compare(x.value, op, y.value) else Err
    ensures var i, j := ColumnIndex(schema, a, 0), ColumnIndex(schema, b, 0);
            Truth(lib, schema, ColumnRef(a), op, ColumnRef(b), values)
                == if i.Some? && j.Some? then Compare(values[i.value], op, values[j.value]) else Err
  {
  }

  /** Where a stored integer stands in the order decides a comparison with an integer literal. */
  lemma IntegerVerdict(lib: Lib, schema: Schema, name: seq<byte>, i: nat, op: CompareOp, text: seq<byte>, n: int,
                       values: seq<Value>)
    requires Fits(schema, values) && ColumnIndex(schema, name, 0) == Some(i) && schema[i].typ == TypeI32
    requires ParseInt(text, true) == Some(n) && InRange(I32(n))
    ensures EvalValues(lib, schema, Comparison(ColumnRef(name), op, Literal(text)), values)
            == Ok(Relation(op, values[i].i, n))
    ensures EvalValues(lib, schema, Comparison(Literal(text), op, ColumnRef(name)), values)
            == Ok(Relation(op, n, values[i].i))
  {
    LiteralBesideColumn(lib, schema, name, i, op, text, values);
    NumbersCompare(op, values[i].i, n, [], []);
    NumbersCompare(op, n, values[i].i, [], []);
  }

  /** Evaluating the bytes of an encoded row is evaluating its values. */
  lemma {:induction false} EvalAgrees(lib: Lib, schema: Schema, c: Condition, values: seq<Value>)
    requires Fits(schema, values) && Encodable(values)
    ensures EvalBytes(lib, schema, c, EncodeRow(values)) == EvalValues(lib, schema, c, values)
  {
    match c {
      case Comparison(left, op, right) =>
        forall t ensures ResolveBytes(lib, schema, left, t, EncodeRow(values))
            == ResolveValue(lib, schema, left, t, values) {
          ResolveAgrees(lib, schema, left, t, values);
        }
        forall t ensures ResolveBytes(lib, schema, right, t, EncodeRow(values))
            == ResolveValue(lib, schema, right, t, values) {
          ResolveAgrees(lib, schema, right, t, values);
        }
      case Logical(first, lop, second) =>
        EvalAgrees(lib, schema, first, values);
        EvalAgrees(lib, schema, second, values);
    }
  }

  lemma ResolveAgrees(lib: Lib, schema: Schema, o: Operand, t: Type, values: seq<Value>)
    requires Fits(schema, values) && Encodable(values)
    ensures ResolveBytes(lib, schema, o, t, EncodeRow(values)) == ResolveValue(lib, schema, o, t, values)
  {
    if o.ColumnRef? {
      var i := ColumnIndex(schema, o.name, 0);
      if i.Some? {
        RowRoundTrip(schema, values, i.value);
      }
    }
  }

  /** Order-independent three-valued semantics: a connective is decided as soon as either
      operand decides it. */
  ghost function Kleene(lib: Lib, schema: Schema, c: Condition, values: seq<Value>): Result<bool>
    requires |values| == |schema|
  {
    match c
    case Comparison(left, op, right) => Truth(lib, schema, left, op, right, values)
    case Logical(first, lop, second) =>
      var l, r := Kleene(lib, schema, first, values), Kleene(lib, schema, second, values);
      var decisive := Ok(lop == OR);
      if l == decisive || r == decisive then decisive else if l.Err? || r.Err? then Err else Ok(lop == AND)
  }

  /** Every comparison in the condition has a truth value. */
  ghost predicate NoFailure(lib: Lib, schema: Schema, c: Condition, values: seq<Value>)
    requires |values| == |schema|
  {
    match c
    case Comparison(left, op, right) => Truth(lib, schema, left, op, right, values).Ok?
    case Logical(first, _, second) => NoFailure(lib, schema, first, values) && NoFailure(lib, schema, second, values)
  }

  /** Short-circuit evaluation never contradicts the order-independent semantics, and without
      failing comparisons both are ordinary Boolean logic. */
  lemma {:induction false} ShortCircuitIsSound(lib: Lib, schema: Schema, c: Condition, values: seq<Value>)
    requires |values| == |schema|
    ensures EvalValues(lib, schema, c, values).Ok? ==>
            Kleene(lib, schema, c, values) == EvalValues(lib, schema, c, values)
    ensures Kleene(lib, schema, c, values).Err? ==> EvalValues(lib, schema, c, values).Err?
    ensures NoFailure(lib, schema, c, values) ==> EvalValues(lib, schema, c, values).Ok?
  {
    match c {
      case Comparison(_, _, _) =>
      case Logical(first, lop, second) =>
        ShortCircuitIsSound(lib, schema, first, values);
        ShortCircuitIsSound(lib, schema, second, values);
        var l, r := EvalValues(lib, schema, first, values), EvalValues(lib, schema, second, values);
        assert l.Ok? && l.value != (lop == OR) ==> l == Ok(lop == AND) && EvalValues(lib, schema, c, values) == r;
        assert r.Ok? ==> r == Ok(r.value) && (r.value == (lop == OR) || r.value == (lop == AND));
    }
  }

  /** Ordinary Boolean logic, in which a failing comparison counts as `failing`. */
  ghost function Assuming(lib: Lib, schema: Schema, c: Condition, values: seq<Value>, failing: bool): bool
    requires |values| == |schema|
  {
    match c
    case Comparison(left, op, right) =>
      var t := Truth(lib, schema, left, op, right, values);
      if t.Ok? then t.value else failing
    case Logical(first, lop, second) =>
      var l := Assuming(lib, schema, first, values, failing);
      var r := Assuming(lib, schema, second, values, failing);
      if lop == AND then l && r else l || r
  }

  /** The order-independent semantics gives a truth value exactly if it is the same whatever
      the failing comparisons count as, and then this one. */
  lemma {:induction false} KleeneIsForced(lib: Lib, schema: Schema, c: Condition, values: seq<Value>)
    requires |values| == |schema|
    ensures var k := Kleene(lib, schema, c, values);
            var low, high := Assuming(lib, schema, c, values, false), Assuming(lib, schema, c, values, true);
            (low ==> high) && k == if low == high then Ok(low) else Err
  {
    match c {
      case Comparison(_, _, _) =>
      case Logical(first, _, second) =>
        KleeneIsForced(lib, schema, first, values);
        KleeneIsForced(lib, schema, second, values);
    }
  }

  // ----- what is evaluated

  ghost predicate Fails(lib: Lib, schema: Schema, c: Condition, values: seq<Value>)
    requires |values| == |schema|
  {
    c.Comparison? && Truth(lib, schema, c.left, c.op, c.right, values).Err?
  }

  /** The comparisons that are reached from left to right: nothing behind a failing one, and
      nothing on the right of a connective that its left operand settles. */
  ghost function Reached(lib: Lib, schema: Schema, c: Condition, values: seq<Value>): (cs: seq<Condition>)
    requires |values| == |schema|
    ensures cs != []
  {
    match c
    case Comparison(_, _, _) => [c]
    case Logical(first, lop, second) =>
      var cs := Reached(lib, schema, first, values);
      if Fails(lib, schema, cs[|cs| - 1], values) || Kleene(lib, schema, first, values) == Ok(lop == OR) then cs
      else cs + Reached(lib, schema, second, values)
  }

  /** All comparisons but the last one have a truth value; the last one fails if `fails`. */
  ghost predicate FailsAtEnd(lib: Lib, schema: Schema, cs: seq<Condition>, values: seq<Value>, fails: bool)
    requires |values| == |schema|
  {
    && cs != [] && (Fails(lib, schema, cs[|cs| - 1], values) <==> fails)
    && forall i | 0 <= i < |cs| - 1 :: !Fails(lib, schema, cs[i], values)
  }

  lemma Continued(lib: Lib, schema: Schema, cs: seq<Condition>, ds: seq<Condition>, values: seq<Value>, fails: bool)
    requires |values| == |schema|
    requires FailsAtEnd(lib, schema, cs, values, false) && FailsAtEnd(lib, schema, ds, values, fails)
    ensures FailsAtEnd(lib, schema, cs + ds, values, fails)
  {
    var all := cs + ds;
    assert all[|all| - 1] == ds[|ds| - 1];
    forall i | 0 <= i < |all| - 1 ensures !Fails(lib, schema, all[i], values) {
      assert all[i] == if i < |cs| then cs[i] else ds[i - |cs|];
    }
  }

  /** Evaluation fails exactly when the last comparison it reaches fails; all others it
      reaches have a truth value. */
  lemma {:induction false} FailsIffReachedFails(lib: Lib, schema: Schema, c: Condition, values: seq<Value>)
    requires |values| == |schema|
    ensures FailsAtEnd(lib, schema, Reached(lib, schema, c, values), values, EvalValues(lib, schema, c, values).Err?)
  {
    match c {
      case Comparison(_, _, _) =>
      case Logical(first, lop, second) =>
        FailsIffReachedFails(lib, schema, first, values);
        FailsIffReachedFails(lib, schema, second, values);
        ShortCircuitIsSound(lib, schema, first, values);
        var l, r := EvalValues(lib, schema, first, values), EvalValues(lib, schema, second, values);
        if l.Ok? && l != Ok(lop == OR) {
          Continued(lib, schema, Reached(lib, schema, first, values), Reached(lib, schema, second, values), values,
                    r.Err?);
        }
    }
  }
}
