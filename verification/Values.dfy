/** Values of conditions, module values, and the operators on them (the scalar arms of `evaluator/mod.rs`). */
module Values {
  import opened Base
  import opened Bits

  /** A double, by its bit pattern: what the operations on doubles compute is left to the `Scan` below. */
  datatype Float = Float(bits: nat)

  datatype Value = Integer(n: i64) | Floating(f: Float) | Bytes(s: bytes) | Regex(id: nat) | Boolean(b: bool)

  /** A value produced by a module. A dictionary lists its entries in the order in which it is iterated. */
  datatype ModuleValue =
    | MInteger(n: i64)
    | MFloat(f: Float)
    | MBytes(s: bytes)
    | MRegex(id: nat)
    | MBoolean(b: bool)
    | Object(fields: map<string, ModuleValue>)
    | Array(values: seq<ModuleValue>)
    | Dictionary(entries: seq<(bytes, ModuleValue)>)
    | Function(id: nat)
    | MUndefined

  /** Why a value cannot be computed. `Stuck` stands for the arms that a well-typed condition never takes: the source
      answers `Undefined` there, or panics on an index out of bounds. */
  datatype Poison = VarNeeded | Undefined | Stuck

  datatype Res<+T> = Ok(v: T) | Err(p: Poison)

  type Result = Res<Value>

  datatype ArithOp = Add | Sub | Mul | Div
  datatype IntOp = Mod | Xor | And | Or | ShiftLeft | ShiftRight
  datatype StringOp = Contains | StartsWith | EndsWith | IEquals

  /** Everything a condition reads besides its variables: the scan, and the operations that are not modelled. */
  datatype Scan = Scan(
    filesize: Option<nat>,
    entrypoint: Option<nat>,
    readInteger: (nat, nat) -> Option<i64>,
    floatOp: (ArithOp, Float, Float) -> Float,
    floatNeg: Float -> Float,
    floatOf: i64 -> Float,
    floatLess: (Float, Float, bool) -> bool,
    floatEq: (Float, Float) -> bool,
    floatNonZero: Float -> bool,
    isNan: Float -> bool,
    percentOf: (i64, nat) -> i64,
    isMatch: (nat, bytes) -> bool,
    call: (nat, seq<ModuleValue>) -> Option<ModuleValue>,
    modules: seq<ModuleValue>,
    externals: seq<Value>,
    rules: seq<bool>)

  function ToBool(c: Scan, v: Value): bool {
    match v
    case Boolean(b) => b
    case Bytes(s) => s != []
    case Floating(f) => c.floatNonZero(f)
    case Integer(n) => n != 0
    case Regex(_) => true
  }

  // ----- Integers of 64 bits -----

  const TWO64: int := 0x1_0000_0000_0000_0000

  function Wrap(n: int): i64 {
    var m := n % TWO64;
    if m > I64_MAX then m - TWO64 else m
  }

  /** Division truncates towards zero; the remainder has the sign of the dividend. */
  function TruncDiv(n: int, m: int): int
    requires m != 0
  {
    if n >= 0 then n / m else -((-n) / m)
  }

  function CheckedDiv(n: i64, m: i64): Option<i64> {
    if m == 0 || (n == I64_MIN && m == -1) then None
    else
      var q := TruncDiv(n, m);
      if I64_MIN <= q <= I64_MAX then Some(q) else None
  }

  function CheckedRem(n: i64, m: i64): Option<i64> {
    if m == 0 || (n == I64_MIN && m == -1) then None
    else
      var r := n - m * TruncDiv(n, m);
      if I64_MIN <= r <= I64_MAX then Some(r) else None
  }

  /** An operation on the bits of two's complements. */
  function OnWords(op: BitOp, n: i64, m: i64): i64 {
    Wrap(Combine(op, n % TWO64, m % TWO64, 64))
  }

  function IntOpValue(op: IntOp, n: i64, m: i64): Result {
    match op
    case Mod => if CheckedRem(n, m).Some? then Ok(Integer(CheckedRem(n, m).value)) else Err(Undefined)
    case Xor => Ok(Integer(OnWords(BitXor, n, m)))
    case And => Ok(Integer(OnWords(BitAnd, n, m)))
    case Or => Ok(Integer(OnWords(BitOr, n, m)))
    case ShiftLeft =>
      if m < 0 then Err(Undefined) else if m >= 64 then Ok(Integer(0)) else Ok(Integer(Wrap(n * Pow2(m))))
    case ShiftRight =>
      if m < 0 then Err(Undefined) else if m >= 64 then Ok(Integer(0)) else Ok(Integer(Wrap(ShiftDown(n, m))))
  }

  function ShiftDown(n: int, k: nat): int
    decreases k
  {
    if k == 0 then n else ShiftDown(n / 2, k - 1)
  }

  // ----- Operators, on the results of their operands -----

  function IntOf(r: Result): Res<i64> {
    match r
    case Ok(Integer(n)) => Ok(n)
    case Ok(_) => Err(Stuck)
    case Err(p) => Err(p)
  }

  function BytesOf(r: Result): Res<bytes> {
    match r
    case Ok(Bytes(s)) => Ok(s)
    case Ok(_) => Err(Stuck)
    case Err(p) => Err(p)
  }

  function ArithValue(c: Scan, op: ArithOp, x: Value, y: Value): Result {
    match (x, y)
    case (Integer(n), Integer(m)) =>
      (match op
       case Add => Ok(Integer(Wrap(n + m)))
       case Sub => Ok(Integer(Wrap(n - m)))
       case Mul => Ok(Integer(Wrap(n * m)))
       case Div => if CheckedDiv(n, m).Some? then Ok(Integer(CheckedDiv(n, m).value)) else Err(Undefined))
    case (Floating(a), Integer(n)) => Ok(Floating(c.floatOp(op, a, c.floatOf(n))))
    case (Integer(n), Floating(a)) => Ok(Floating(c.floatOp(op, c.floatOf(n), a)))
    case (Floating(a), Floating(b)) => Ok(Floating(c.floatOp(op, a, b)))
    case _ => Err(Stuck)
  }

  /** Both operands are evaluated, then combined. */
  function Arith(c: Scan, op: ArithOp, l: Result, r: Result): Result {
    if l.Err? then l else if r.Err? then r else ArithValue(c, op, l.v, r.v)
  }

  function IntArith(op: IntOp, l: Result, r: Result): Result {
    var n := IntOf(l);
    if n.Err? then Err(n.p)
    else
      var m := IntOf(r);
      if m.Err? then Err(m.p) else IntOpValue(op, n.v, m.v)
  }

  /** The negation of an integer wraps, as in an optimised build. */
  function Neg(c: Scan, r: Result): Result {
    match r
    case Ok(Integer(n)) => Ok(Integer(Wrap(0 - n as int)))
    case Ok(Floating(f)) => Ok(Floating(c.floatNeg(f)))
    case Ok(_) => Err(Stuck)
    case Err(_) => r
  }

  function BitNot(r: Result): Result {
    var n := IntOf(r);
    if n.Err? then Err(n.p) else Ok(Integer(Wrap(-1 - n.v as int)))
  }

  function Not(c: Scan, r: Result): Result {
    if r.Err? then r else Ok(Boolean(!ToBool(c, r.v)))
  }

  function BytesLess(a: bytes, b: bytes): bool {
    if b == [] then false
    else if a == [] then true
    else if a[0] != b[0] then a[0] < b[0]
    else BytesLess(a[1..], b[1..])
  }

  /** `left < right` or, if they may be equal, `left <= right`. */
  function LessValue(c: Scan, x: Value, y: Value, orEqual: bool): Res<bool> {
    match (x, y)
    case (Integer(n), Integer(m)) => Ok(if orEqual then n <= m else n < m)
    case (Floating(a), Floating(b)) => Ok(c.floatLess(a, b, orEqual))
    case (Integer(n), Floating(b)) => Ok(c.floatLess(c.floatOf(n), b, orEqual))
    case (Floating(a), Integer(m)) => Ok(c.floatLess(a, c.floatOf(m), orEqual))
    case (Bytes(a), Bytes(b)) => Ok(BytesLess(a, b) || (orEqual && a == b))
    case _ => Err(Stuck)
  }

  function Cmp(c: Scan, l: Result, r: Result, lessThan: bool, canBeEqual: bool): Result {
    if l.Err? then l
    else if r.Err? then r
    else
      var b := if lessThan then LessValue(c, l.v, r.v, canBeEqual) else LessValue(c, r.v, l.v, canBeEqual);
      if b.Err? then Err(b.p) else Ok(Boolean(b.v))
  }

  function EqValue(c: Scan, x: Value, y: Value): Res<bool> {
    match (x, y)
    case (Integer(n), Integer(m)) => Ok(n == m)
    case (Floating(a), Floating(b)) => Ok(c.floatEq(a, b))
    case (Integer(n), Floating(a)) => Ok(c.floatEq(a, c.floatOf(n)))
    case (Floating(a), Integer(n)) => Ok(c.floatEq(a, c.floatOf(n)))
    case (Bytes(a), Bytes(b)) => Ok(a == b)
    case (Boolean(a), Boolean(b)) => Ok(a == b)
    case _ => Err(Stuck)
  }

  function Eq(c: Scan, l: Result, r: Result, negated: bool): Result {
    if l.Err? then l
    else if r.Err? then r
    else
      var b := EqValue(c, l.v, r.v);
      if b.Err? then Err(b.p) else Ok(Boolean(b.v != negated))
  }

  function Lowercase(s: bytes): (r: bytes)
    ensures |r| == |s|
  {
    seq(|s|, k requires 0 <= k < |s| => if 65 <= s[k] <= 90 then s[k] + 32 else s[k])
  }

  predicate IsInfix(needle: bytes, s: bytes) {
    exists k :: 0 <= k <= |s| && needle <= s[k..]
  }

  predicate StringTest(op: StringOp, a: bytes, b: bytes) {
    match op
    case Contains => IsInfix(b, a)
    case StartsWith => b <= a
    case EndsWith => |b| <= |a| && a[|a| - |b|..] == b
    case IEquals => a == b
  }

  function Strings(op: StringOp, caseInsensitive: bool, l: Result, r: Result): Result {
    var a := BytesOf(l);
    if a.Err? then Err(a.p)
    else
      var b := BytesOf(r);
      if b.Err? then Err(b.p)
      else if caseInsensitive || op.IEquals? then Ok(Boolean(StringTest(op, Lowercase(a.v), Lowercase(b.v))))
      else Ok(Boolean(StringTest(op, a.v, b.v)))
  }

  function MatchesRegex(c: Scan, r: Result, regex: nat): Result {
    var s := BytesOf(r);
    if s.Err? then Err(s.p) else Ok(Boolean(c.isMatch(regex, s.v)))
  }

  predicate IsUndefined(p: Poison) {
    p.Undefined? || p.Stuck?
  }

  function Defined(r: Result): Result {
    if r.Ok? then Ok(Boolean(true)) else if IsUndefined(r.p) then Ok(Boolean(false)) else r
  }

  /** Conjunction: false as soon as one operand is false or undefined. */
  function Conjunction(c: Scan, rs: seq<Result>, varNeeded: bool): Result
    decreases rs
  {
    if rs == [] then if varNeeded then Err(VarNeeded) else Ok(Boolean(true))
    else
      match rs[0]
      case Ok(v) => if ToBool(c, v) then Conjunction(c, rs[1..], varNeeded) else Ok(Boolean(false))
      case Err(VarNeeded) => Conjunction(c, rs[1..], true)
      case Err(_) => Ok(Boolean(false))
  }

  /** Disjunction: true as soon as one operand is true. */
  function Disjunction(c: Scan, rs: seq<Result>, varNeeded: bool): Result
    decreases rs
  {
    if rs == [] then if varNeeded then Err(VarNeeded) else Ok(Boolean(false))
    else
      match rs[0]
      case Ok(v) => if ToBool(c, v) then Ok(Boolean(true)) else Disjunction(c, rs[1..], varNeeded)
      case Err(VarNeeded) => Disjunction(c, rs[1..], true)
      case Err(_) => Disjunction(c, rs[1..], varNeeded)
  }

  // ----- Module values -----

  function FromModule(c: Scan, v: ModuleValue): Result {
    match v
    case MInteger(n) => Ok(Integer(n))
    case MFloat(f) => if c.isNan(f) then Err(Undefined) else Ok(Floating(f))
    case MBytes(s) => Ok(Bytes(s))
    case MRegex(id) => Ok(Regex(id))
    case MBoolean(b) => Ok(Boolean(b))
    case MUndefined => Err(Undefined)
    case _ => Err(Stuck)
  }

  function ToModule(v: Value): ModuleValue {
    match v
    case Integer(n) => MInteger(n)
    case Floating(f) => MFloat(f)
    case Bytes(s) => MBytes(s)
    case Regex(id) => MRegex(id)
    case Boolean(b) => MBoolean(b)
  }

  function ToModules(vs: seq<Value>): (r: seq<ModuleValue>)
    ensures |r| == |vs|
  {
    seq(|vs|, k requires 0 <= k < |vs| => ToModule(vs[k]))
  }

  /** One step on the path from a module value to the value used. */
  datatype Op = Subfield(name: string) | Subscript | Call(nbArguments: nat)

  function Lookup(entries: seq<(bytes, ModuleValue)>, key: bytes): Res<ModuleValue> {
    if entries == [] then Err(Undefined)
    else if entries[0].0 == key then Ok(entries[0].1)
    else Lookup(entries[1..], key)
  }

  /** How many arguments a step takes. */
  function ArgumentCount(op: Op): nat {
    match op
    case Subfield(_) => 0
    case Subscript => 1
    case Call(n) => n
  }

  /** One step on a value, with its arguments. */
  function EvalOp(c: Scan, value: ModuleValue, op: Op, args: seq<Value>): Res<ModuleValue>
    requires |args| == ArgumentCount(op)
  {
    if value.MUndefined? then Err(Undefined)
    else
      match op
      case Subfield(name) =>
        if !value.Object? then Err(Stuck)
        else if name in value.fields then Ok(value.fields[name])
        else Err(Undefined)
      case Subscript =>
        (match value
         case Array(vs) =>
           var i := IntOf(Ok(args[0]));
           if i.Err? then Err(i.p) else if 0 <= i.v < |vs| then Ok(vs[i.v]) else Err(Undefined)
         case Dictionary(entries) =>
           var key := BytesOf(Ok(args[0]));
           if key.Err? then Err(key.p) else Lookup(entries, key.v)
         case _ => Err(Stuck))
      case Call(_) =>
        if !value.Function? then Err(Stuck)
        else
          var r := c.call(value.id, ToModules(args));
          if r.None? then Err(Undefined) else Ok(r.value)
  }

  /** `evaluate_ops`: follow the path, taking the subscripts and arguments from the front of `args`. */
  function EvalOps(c: Scan, value: ModuleValue, ops: seq<Op>, args: seq<Value>): Res<ModuleValue>
    decreases ops
  {
    if ops == [] then Ok(value)
    else
      var n := ArgumentCount(ops[0]);
      if n > |args| then Err(Stuck)
      else
        var r := EvalOp(c, value, ops[0], args[..n]);
        if r.Err? then r else EvalOps(c, r.v, ops[1..], args[n..])
  }

  /** How many arguments a path takes. */
  function Arity(ops: seq<Op>): nat {
    if ops == [] then 0 else ArgumentCount(ops[0]) + Arity(ops[1..])
  }

  /** The values of a list of results, or the first error. */
  function Collect(rs: seq<Result>): Res<seq<Value>> {
    if rs == [] then Ok([])
    else if rs[0].Err? then Err(rs[0].p)
    else
      var rest := Collect(rs[1..]);
      if rest.Err? then rest else Ok([rs[0].v] + rest.v)
  }
}
