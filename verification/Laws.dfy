/** What conditions answer, said without the functions that compute it: comparisons, arithmetic on machine integers, string
    tests, variables, loops and module paths, all as laws on `Eval`. */
module Laws {
  import opened Base
  import opened Bits
  import opened Values
  import opened VarMatches
  import opened Expressions
  import S = Selection

  // ----- From operators to their operands -----

  lemma OperatorIs(c: Scan, env: Env, e: Expr)
    requires IsOperator(e)
    ensures Eval(c, env, e) == Apply(c, env, e, EvalOperands(c, env, e))
  {
    hide Apply, EvalOperands, EvalSelection, EvalLoop, EvalModule, RuleTris, SelectResults;
  }

  lemma OneOperand(c: Scan, env: Env, e: Expr, x: Expr)
    requires IsOperator(e) && Operands(e) == [x]
    ensures Eval(c, env, e) == Apply(c, env, e, [Eval(c, env, x)])
  {
    hide Apply, Eval, IsOperator;
    OperatorIs(c, env, e);
    assert EvalOperands(c, env, e) == [Eval(c, env, x)];
  }

  lemma TwoOperands(c: Scan, env: Env, e: Expr, x: Expr, y: Expr)
    requires IsOperator(e) && Operands(e) == [x, y]
    ensures Eval(c, env, e) == Apply(c, env, e, [Eval(c, env, x), Eval(c, env, y)])
  {
    hide Apply, Eval, IsOperator;
    OperatorIs(c, env, e);
    assert EvalOperands(c, env, e) == [Eval(c, env, x), Eval(c, env, y)];
  }

  predicate IsInt(c: Scan, env: Env, e: Expr, n: i64) {
    Eval(c, env, e) == Ok(Integer(n))
  }

  predicate IsBytes(c: Scan, env: Env, e: Expr, s: bytes) {
    Eval(c, env, e) == Ok(Bytes(s))
  }

  predicate Answers(c: Scan, env: Env, e: Expr, b: bool) {
    Eval(c, env, e) == Ok(Boolean(b))
  }

  // ----- Comparisons -----

  /** The flags of a comparison choose `<`, `<=`, `>` or `>=` of the operands in order. */
  lemma CompareIntegers(c: Scan, env: Env, l: Expr, r: Expr, n: i64, m: i64)
    requires IsInt(c, env, l, n) && IsInt(c, env, r, m)
    ensures Answers(c, env, Compare(l, r, true, false), n < m)
    ensures Answers(c, env, Compare(l, r, true, true), n <= m)
    ensures Answers(c, env, Compare(l, r, false, false), n > m)
    ensures Answers(c, env, Compare(l, r, false, true), n >= m)
  {
    hide Eval;
    forall lt, eq { TwoOperands(c, env, Compare(l, r, lt, eq), l, r); }
  }

  /** The lexicographic order: at the first index where they differ the byte of `a` is smaller, or `a` is a proper prefix. */
  ghost predicate Before(a: bytes, b: bytes) {
    exists i: nat :: DivergeAt(a, b, i)
  }

  predicate DivergeAt(a: bytes, b: bytes, i: nat) {
    i <= |a| && i < |b| && a[..i] == b[..i] && (i == |a| || a[i] < b[i])
  }

  lemma {:induction false} BytesLessIff(a: bytes, b: bytes)
    ensures BytesLess(a, b) <==> Before(a, b)
    decreases |a|
  {
    if a == [] || b == [] || a[0] != b[0] {
      if BytesLess(a, b) { assert DivergeAt(a, b, 0); }
    } else {
      BytesLessIff(a[1..], b[1..]);
      if Before(a[1..], b[1..]) {
        var i: nat :| DivergeAt(a[1..], b[1..], i);
        assert a[..i + 1] == [a[0]] + a[1..][..i] && b[..i + 1] == [b[0]] + b[1..][..i];
        assert DivergeAt(a, b, i + 1);
      }
      if Before(a, b) {
        var i: nat :| DivergeAt(a, b, i);
        assert i > 0 && a[1..][..i - 1] == a[..i][1..] && b[1..][..i - 1] == b[..i][1..];
        assert DivergeAt(a[1..], b[1..], i - 1);
      }
    }
  }

  lemma CompareBytes(c: Scan, env: Env, l: Expr, r: Expr, a: bytes, b: bytes)
    requires IsBytes(c, env, l, a) && IsBytes(c, env, r, b)
    ensures Answers(c, env, Compare(l, r, true, false), Before(a, b))
    ensures Answers(c, env, Compare(l, r, true, true), Before(a, b) || a == b)
    ensures Answers(c, env, Compare(l, r, false, false), Before(b, a))
    ensures Answers(c, env, Compare(l, r, false, true), Before(b, a) || a == b)
  {
    hide Eval, Before;
    BytesLessIff(a, b);
    BytesLessIff(b, a);
    forall lt, eq { TwoOperands(c, env, Compare(l, r, lt, eq), l, r); }
  }

  /** Two numbers, of which one at least is a double; the other is converted. */
  predicate Doubles(c: Scan, x: Result, y: Result, f: Float, g: Float) {
    && (x.Ok? && y.Ok? && (x.v.Floating? || y.v.Floating?))
    && (x.v == Floating(f) || (x.v.Integer? && c.floatOf(x.v.n) == f))
    && (y.v == Floating(g) || (y.v.Integer? && c.floatOf(y.v.n) == g))
  }

  lemma CompareFloats(c: Scan, env: Env, l: Expr, r: Expr, f: Float, g: Float, orEqual: bool)
    requires Doubles(c, Eval(c, env, l), Eval(c, env, r), f, g)
    ensures Answers(c, env, Compare(l, r, true, orEqual), c.floatLess(f, g, orEqual))
    ensures Answers(c, env, Compare(l, r, false, orEqual), c.floatLess(g, f, orEqual))
  {
    hide Eval;
    forall lt { TwoOperands(c, env, Compare(l, r, lt, orEqual), l, r); }
  }

  /** Integers, bytes and booleans are equal when they are the same. */
  lemma EqualValues(c: Scan, env: Env, l: Expr, r: Expr, x: Value, y: Value, negated: bool)
    requires Eval(c, env, l) == Ok(x) && Eval(c, env, r) == Ok(y)
    requires (x.Integer? && y.Integer?) || (x.Bytes? && y.Bytes?) || (x.Boolean? && y.Boolean?)
    ensures Answers(c, env, Equals(l, r, negated), if negated then x != y else x == y)
  {
    hide Eval;
    TwoOperands(c, env, Equals(l, r, negated), l, r);
  }

  /** The equality of doubles is that of the scan; a converted integer comes second. */
  lemma EqualFloats(c: Scan, env: Env, l: Expr, r: Expr, f: Float, g: Float, negated: bool)
    requires Doubles(c, Eval(c, env, l), Eval(c, env, r), f, g)
    ensures var first := Eval(c, env, l).v.Floating?;
            Answers(c, env, Equals(l, r, negated), negated != if first then c.floatEq(f, g) else c.floatEq(g, f))
  {
    hide Eval;
    TwoOperands(c, env, Equals(l, r, negated), l, r);
  }

  // ----- Arithmetic -----

  /** The same modulo 2^64. */
  ghost predicate Congruent(z: int, x: int) {
    exists q: int :: z == x + q * 0x1_0000_0000_0000_0000
  }

  lemma WrapIsCongruent(x: int)
    ensures Congruent(Wrap(x), x)
  {
    var m := x % TWO64;
    var q := -(x / TWO64);
    assert m == x + q * TWO64;
    assert Wrap(x) == x + (if m > I64_MAX then q - 1 else q) * TWO64;
  }

  /** A number of 64 bits is known by its value modulo 2^64. */
  lemma CongruentIsUnique(z: i64, z': i64, x: int)
    requires Congruent(z, x) && Congruent(z', x)
    ensures z == z'
  {
    var q: int :| z == x + q * 0x1_0000_0000_0000_0000;
    var q': int :| z' == x + q' * 0x1_0000_0000_0000_0000;
    assert z - z' == (q - q') * 0x1_0000_0000_0000_0000;
  }

  lemma Wraps(c: Scan, env: Env, op: ArithOp, l: Expr, r: Expr, n: i64, m: i64, x: int)
    requires IsInt(c, env, l, n) && IsInt(c, env, r, m) && !op.Div?
    requires x == if op.Add? then n + m else if op.Sub? then n - m else n * m
    ensures IsInt(c, env, Arithmetic(op, l, r), Wrap(x)) && Congruent(Wrap(x), x)
  {
    hide Eval, Congruent, Wrap;
    TwoOperands(c, env, Arithmetic(op, l, r), l, r);
    WrapIsCongruent(x);
  }

  /** The sum, the difference and the product wrap. */
  lemma AddSubMul(c: Scan, env: Env, l: Expr, r: Expr, n: i64, m: i64) returns (sum: i64, difference: i64, product: i64)
    requires IsInt(c, env, l, n) && IsInt(c, env, r, m)
    ensures IsInt(c, env, Arithmetic(Add, l, r), sum) && Congruent(sum, n + m)
    ensures IsInt(c, env, Arithmetic(Sub, l, r), difference) && Congruent(difference, n - m)
    ensures IsInt(c, env, Arithmetic(Mul, l, r), product) && Congruent(product, n * m)
  {
    hide IsInt, Congruent, Wrap;
    sum, difference, product := Wrap(n + m), Wrap(n - m), Wrap(n * m);
    Wraps(c, env, Add, l, r, n, m, n + m);
    Wraps(c, env, Sub, l, r, n, m, n - m);
    Wraps(c, env, Mul, l, r, n, m, n * m);
  }

  /** `q` is `n / m` truncated towards zero: the remainder is smaller than the divisor, and has the sign of the dividend. */
  predicate IsQuotient(n: int, m: int, q: int) {
    var rest := n - q * m;
    (if m > 0 then 0 - m < rest < m else m < rest < 0 - m) && (rest > 0 ==> n > 0) && (rest < 0 ==> n < 0)
  }

  lemma {:induction false} Multiple(a: nat, d: nat)
    requires a > 0
    ensures a * d >= d && (d > 0 ==> a * d >= a)
    decreases a
  {
    assert a * d == (a - 1) * d + d;
    if a > 1 { Multiple(a - 1, d); }
  }

  lemma SameQuotient(q: int, q': int, d: nat, rest: int, rest': int)
    requires q * d + rest == q' * d + rest' && 0 <= rest < d && 0 <= rest' < d
    ensures q == q'
  {
    assert (q' - q) * d == q' * d - q * d && (q - q') * d == q * d - q' * d;
    if q < q' { Multiple(q' - q, d); }
    if q > q' { Multiple(q - q', d); }
  }

  lemma NaturalQuotient(n: nat, d: nat)
    requires d > 0
    ensures 0 <= n / d <= n && (n > 0 && d > 1 ==> n / d < n)
  {
    var q := n / d;
    assert n == q * d + n % d;
    if q > 0 {
      Multiple(q, d);
      assert q * d == q * (d - 1) + q;
      if d > 1 { Multiple(q, d - 1); }
    }
  }

  lemma NegativeDivisor(n: nat, m: int)
    requires m < 0
    ensures n / m == 0 - n / (0 - m)
  {
    var d := 0 - m;
    assert n == (n / m) * m + n % m && n == (n / d) * d + n % d;
    assert (n / m) * m == (0 - n / m) * d;
    SameQuotient(n / d, 0 - n / m, d, n % d, n % m);
  }

  lemma QuotientFrom(n: int, m: int, q: int, product: int, rest: int)
    requires m != 0 && product == q * m && n == product + rest
    requires if m > 0 then 0 - m < rest < m else m < rest < 0 - m
    requires (rest > 0 ==> n > 0) && (rest < 0 ==> n < 0)
    ensures IsQuotient(n, m, q)
  {
  }

  lemma Negated(a: int, m: int)
    ensures (0 - a) * m == 0 - a * m
  {
  }

  lemma Euclidean(n: nat, m: int) returns (q: int, rest: nat)
    requires m != 0
    ensures q == n / m && q * m + rest == n && (if m > 0 then rest < m else rest < 0 - m) && (n == 0 ==> rest == 0)
  {
    q, rest := n / m, n % m;
    if n == 0 { ZeroQuotient(m); }
  }

  lemma ZeroQuotient(m: int)
    requires m != 0
    ensures 0 % m == 0
  {
  }

  lemma TruncDivIsQuotient(n: int, m: int)
    requires m != 0
    ensures IsQuotient(n, m, TruncDiv(n, m))
  {
    hide IsQuotient;
    if n >= 0 {
      var q, rest := Euclidean(n, m);
      QuotientFrom(n, m, q, q * m, rest);
    } else {
      var up, rest := Euclidean(0 - n, m);
      Negated(up, m);
      QuotientFrom(n, m, 0 - up, (0 - up) * m, 0 - rest as int);
    }
  }

  /** The quotient is, up to its sign, that of the absolute values. */
  lemma QuotientOfMagnitudes(n: int, m: int, x: nat, d: nat)
    requires m != 0 && x == (if n >= 0 then n else 0 - n) && d == (if m > 0 then m else 0 - m)
    ensures TruncDiv(n, m) == if (n >= 0) == (m > 0) then x / d else 0 - x / d
  {
    if m < 0 { NegativeDivisor(x, m); }
  }

  lemma QuotientInRange(n: i64, m: i64)
    requires m != 0 && !(n == I64_MIN && m == -1)
    ensures I64_MIN <= TruncDiv(n, m) <= I64_MAX
  {
    hide TruncDiv;
    var x: nat := if n >= 0 then n else 0 - n as int;
    var d: nat := if m > 0 then m else 0 - m as int;
    NaturalQuotient(x, d);
    QuotientOfMagnitudes(n, m, x, d);
  }

  lemma RemainderInRange(n: i64, m: i64, q: int, product: int)
    requires m != 0 && IsQuotient(n, m, q) && product == q * m
    ensures I64_MIN <= n - product <= I64_MAX
  {
  }

  /** Division and remainder are undefined on zero and on the one quotient that overflows. */
  lemma DivMod(c: Scan, env: Env, l: Expr, r: Expr, n: i64, m: i64) returns (q: int)
    requires IsInt(c, env, l, n) && IsInt(c, env, r, m)
    ensures m == 0 || (n == I64_MIN && m == -1) ==>
              && Eval(c, env, Arithmetic(Div, l, r)) == Err(Undefined)
              && Eval(c, env, IntArithmetic(Mod, l, r)) == Err(Undefined)
    ensures m != 0 && !(n == I64_MIN && m == -1) ==>
              && IsQuotient(n, m, q) && I64_MIN <= q <= I64_MAX && I64_MIN <= n - q * m <= I64_MAX
              && IsInt(c, env, Arithmetic(Div, l, r), q) && IsInt(c, env, IntArithmetic(Mod, l, r), n - q * m)
  {
    hide Eval, TruncDiv, IsQuotient;
    TwoOperands(c, env, Arithmetic(Div, l, r), l, r);
    TwoOperands(c, env, IntArithmetic(Mod, l, r), l, r);
    q := 0;
    if m != 0 && !(n == I64_MIN && m == -1) {
      q := TruncDiv(n, m);
      TruncDivIsQuotient(n, m);
      QuotientInRange(n, m);
      RemainderInRange(n, m, q, q * m);
      assert q * m == m * q;
    }
  }

  lemma FloatArithmetic(c: Scan, env: Env, op: ArithOp, l: Expr, r: Expr, f: Float, g: Float)
    requires Doubles(c, Eval(c, env, l), Eval(c, env, r), f, g)
    ensures Eval(c, env, Arithmetic(op, l, r)) == Ok(Floating(c.floatOp(op, f, g)))
  {
    hide Eval;
    TwoOperands(c, env, Arithmetic(op, l, r), l, r);
  }

  lemma Negations(c: Scan, env: Env, x: Expr)
    ensures forall n: i64 :: IsInt(c, env, x, n) ==>
              exists z: i64 :: IsInt(c, env, Negate(x), z) && Congruent(z, 0 - n as int)
    ensures forall f :: Eval(c, env, x) == Ok(Floating(f)) ==> Eval(c, env, Negate(x)) == Ok(Floating(c.floatNeg(f)))
  {
    hide Eval, Congruent, Wrap;
    OneOperand(c, env, Negate(x), x);
    forall n: i64 | IsInt(c, env, x, n) ensures exists z: i64 :: IsInt(c, env, Negate(x), z) && Congruent(z, 0 - n as int) {
      WrapIsCongruent(0 - n as int);
      assert IsInt(c, env, Negate(x), Wrap(0 - n as int));
    }
  }

  // ----- Bits -----

  /** A bit of the two's complement. */
  function BitOf(z: i64, k: nat): nat {
    BitAt(z % 0x1_0000_0000_0000_0000, k)
  }

  lemma WrapKeepsWord(x: nat)
    requires x < TWO64
    ensures Wrap(x) % TWO64 == x
  {
  }

  lemma BitwiseOperators(c: Scan, env: Env, l: Expr, r: Expr, n: i64, m: i64) returns (x: i64, a: i64, o: i64)
    requires IsInt(c, env, l, n) && IsInt(c, env, r, m)
    ensures IsInt(c, env, IntArithmetic(Xor, l, r), x) && forall k: nat :: k < 64 ==>
              (BitOf(x, k) == 1 <==> BitOf(n, k) != BitOf(m, k))
    ensures IsInt(c, env, IntArithmetic(And, l, r), a) && forall k: nat :: k < 64 ==>
              (BitOf(a, k) == 1 <==> BitOf(n, k) == 1 && BitOf(m, k) == 1)
    ensures IsInt(c, env, IntArithmetic(Or, l, r), o) && forall k: nat :: k < 64 ==>
              (BitOf(o, k) == 1 <==> BitOf(n, k) == 1 || BitOf(m, k) == 1)
  {
    hide Eval, Combine, BitAt, Wrap, OnWords;
    x, a, o := OnWords(BitXor, n, m), OnWords(BitAnd, n, m), OnWords(BitOr, n, m);
    forall op { TwoOperands(c, env, IntArithmetic(op, l, r), l, r); }
    forall op, k: nat | k < 64
      ensures BitOf(n, k) < 2 && BitOf(m, k) < 2 && BitOf(OnWords(op, n, m), k) == OnBits(op, BitOf(n, k), BitOf(m, k))
    {
      WordBit(op, n, m, k);
    }
  }

  lemma WordBit(op: BitOp, n: i64, m: i64, k: nat)
    requires k < 64
    ensures BitOf(n, k) < 2 && BitOf(m, k) < 2 && BitOf(OnWords(op, n, m), k) == OnBits(op, BitOf(n, k), BitOf(m, k))
  {
    hide Combine, BitAt, Wrap, OnBits;
    PowersOfTwo();
    WrapKeepsWord(Combine(op, n % TWO64, m % TWO64, 64));
    CombineBit(op, n % TWO64, m % TWO64, 64, k);
  }

  lemma {:induction false} ComplementBit(a: nat, width: nat, k: nat)
    requires a < Pow2(width) && k < width
    ensures BitAt(a, k) < 2 && BitAt(Pow2(width) - 1 - a, k) == 1 - BitAt(a, k)
    decreases width
  {
    if k > 0 {
      assert (Pow2(width) - 1 - a) / 2 == Pow2(width - 1) - 1 - a / 2;
      ComplementBit(a / 2, width - 1, k - 1);
    }
  }

  lemma BitwiseComplement(c: Scan, env: Env, e: Expr, n: i64) returns (z: i64)
    requires IsInt(c, env, e, n)
    ensures IsInt(c, env, BitwiseNot(e), z) && forall k: nat :: k < 64 ==> (BitOf(z, k) == 1 <==> BitOf(n, k) != 1)
  {
    hide Eval, BitAt, Pow2;
    OneOperand(c, env, BitwiseNot(e), e);
    z := -1 - n as int;
    assert z % TWO64 == TWO64 - 1 - n % TWO64;
    PowersOfTwo();
    forall k: nat | k < 64 ensures BitOf(z, k) == 1 <==> BitOf(n, k) != 1 { ComplementBit(n % TWO64, 64, k); }
  }

  lemma Twice(z: int, p: int)
    ensures z * (2 * p) == 2 * (z * p)
  {
  }

  lemma {:induction false} ShiftDownIsFloor(n: int, k: nat)
    ensures ShiftDown(n, k) * Pow2(k) <= n < (ShiftDown(n, k) + 1) * Pow2(k)
    decreases k
  {
    if k > 0 {
      ShiftDownIsFloor(n / 2, k - 1);
      var z := ShiftDown(n / 2, k - 1);
      assert ShiftDown(n, k) == z && Pow2(k) == 2 * Pow2(k - 1);
      hide ShiftDown, Pow2;
      Twice(z, Pow2(k - 1));
      Twice(z + 1, Pow2(k - 1));
    }
  }

  lemma {:induction false} ShiftDownInRange(n: i64, k: nat)
    ensures I64_MIN <= ShiftDown(n, k) <= I64_MAX
    decreases k
  {
    if k > 0 { ShiftDownInRange(n / 2, k - 1); }
  }

  /** A shift by a negative number is undefined, and one by 64 or more gives zero. To the left it wraps; to the right it is
      the quotient by a power of two, rounded down. */
  lemma Shifts(c: Scan, env: Env, l: Expr, r: Expr, n: i64, m: i64) returns (left: i64, right: i64)
    requires IsInt(c, env, l, n) && IsInt(c, env, r, m)
    ensures m < 0 ==>
              && Eval(c, env, IntArithmetic(ShiftLeft, l, r)) == Err(Undefined)
              && Eval(c, env, IntArithmetic(ShiftRight, l, r)) == Err(Undefined)
    ensures m >= 0 ==> IsInt(c, env, IntArithmetic(ShiftLeft, l, r), left)
    ensures m >= 0 ==> IsInt(c, env, IntArithmetic(ShiftRight, l, r), right)
    ensures m >= 64 ==> left == right == 0
    ensures 0 <= m < 64 ==> Congruent(left, n * Pow2(m)) && right * Pow2(m) <= n < (right + 1) * Pow2(m)
  {
    hide Eval, Congruent, ShiftDown, Pow2;
    TwoOperands(c, env, IntArithmetic(ShiftLeft, l, r), l, r);
    TwoOperands(c, env, IntArithmetic(ShiftRight, l, r), l, r);
    left, right := 0, 0;
    if 0 <= m < 64 {
      left, right := Wrap(n * Pow2(m)), Wrap(ShiftDown(n, m));
      WrapIsCongruent(n * Pow2(m));
      ShiftDownIsFloor(n, m);
      ShiftDownInRange(n, m);
      assert right == ShiftDown(n, m);
    }
  }

  // ----- Strings -----

  /** `b` is at this index of `a`, exactly or up to the case of letters. */
  predicate ReadsAt(a: bytes, b: bytes, at: nat, anyCase: bool) {
    at + |b| <= |a| && forall j :: 0 <= j < |b| ==> if anyCase then SameLetter(a[at + j], b[j]) else a[at + j] == b[j]
  }

  lemma LowercaseReads(a: bytes, b: bytes, at: nat)
    ensures ReadsAt(Lowercase(a), Lowercase(b), at, false) <==> ReadsAt(a, b, at, true)
  {
    if at + |b| <= |a| {
      var x, y := Lowercase(a), Lowercase(b);
      forall j | 0 <= j < |b| ensures x[at + j] == y[j] <==> SameLetter(a[at + j], b[j]) {}
    }
  }

  lemma TestReads(a: bytes, b: bytes)
    ensures StringTest(Contains, a, b) <==> exists at: nat :: ReadsAt(a, b, at, false)
    ensures StringTest(StartsWith, a, b) <==> ReadsAt(a, b, 0, false)
    ensures StringTest(EndsWith, a, b) <==> |b| <= |a| && ReadsAt(a, b, |a| - |b|, false)
    ensures StringTest(IEquals, a, b) <==> |a| == |b| && ReadsAt(a, b, 0, false)
  {
    forall at: nat ensures at <= |a| && b <= a[at..] <==> ReadsAt(a, b, at, false) {
      if at + |b| <= |a| {
        if ReadsAt(a, b, at, false) { assert a[at..][..|b|] == b; }
        if b <= a[at..] { assert forall j :: 0 <= j < |b| ==> a[at + j] == a[at..][j] == b[j]; }
      }
    }
    assert a[0..] == a;
    if exists at: nat :: ReadsAt(a, b, at, false) {
      var at: nat :| ReadsAt(a, b, at, false);
      assert b <= a[at..];
    }
    if IsInfix(b, a) {
      var k :| 0 <= k <= |a| && b <= a[k..];
      assert ReadsAt(a, b, k, false);
    }
  }

  /** The string tests, each also without regard to case; `iequals` never regards it. */
  lemma StringTests(c: Scan, env: Env, l: Expr, r: Expr, a: bytes, b: bytes, anyCase: bool)
    requires IsBytes(c, env, l, a) && IsBytes(c, env, r, b)
    ensures Answers(c, env, StringOperation(Contains, l, r, anyCase), exists at: nat :: ReadsAt(a, b, at, anyCase))
    ensures Answers(c, env, StringOperation(StartsWith, l, r, anyCase), ReadsAt(a, b, 0, anyCase))
    ensures Answers(c, env, StringOperation(EndsWith, l, r, anyCase), |b| <= |a| && ReadsAt(a, b, |a| - |b|, anyCase))
    ensures Answers(c, env, StringOperation(IEquals, l, r, anyCase), |a| == |b| && ReadsAt(a, b, 0, true))
  {
    hide Eval, StringTest, ReadsAt, Lowercase;
    forall op { TwoOperands(c, env, StringOperation(op, l, r, anyCase), l, r); }
    TestReads(a, b);
    TestReads(Lowercase(a), Lowercase(b));
    forall at: nat { LowercaseReads(a, b, at); }
    assert |Lowercase(a)| == |a| && |Lowercase(b)| == |b|;
    if anyCase {
      assert (exists at: nat :: ReadsAt(Lowercase(a), Lowercase(b), at, false)) <==> (exists at: nat :: ReadsAt(a, b, at, true));
    }
  }

  // ----- Booleans -----

  /** What counts as true. */
  predicate Truthy(c: Scan, v: Value) {
    v != Boolean(false) && v != Integer(0) && v != Bytes([]) && (v.Floating? ==> c.floatNonZero(v.f))
  }

  predicate IsTrue(c: Scan, r: Result) {
    r.Ok? && Truthy(c, r.v)
  }

  /** Not true and not waiting for the matches. What has no value is false. */
  predicate IsFalse(c: Scan, r: Result) {
    !IsTrue(c, r) && r != Err(VarNeeded)
  }

  lemma NotOf(c: Scan, env: Env, e: Expr)
    ensures var x, r := Eval(c, env, e), Eval(c, env, Negation(e)); if x.Err? then r == x else r == Ok(Boolean(!IsTrue(c, x)))
  {
    hide Eval;
    OneOperand(c, env, Negation(e), e);
  }

  /** Something that needs the matches is not known to be defined. */
  lemma DefinedOf(c: Scan, env: Env, e: Expr)
    ensures var x, r := Eval(c, env, e), Eval(c, env, IsDefined(e));
            if x == Err(VarNeeded) then r == x else r == Ok(Boolean(x.Ok?))
  {
    hide Eval;
    OneOperand(c, env, IsDefined(e), e);
  }

  lemma {:induction false} ConjunctionIs(c: Scan, rs: seq<Result>, needed: bool)
    ensures Conjunction(c, rs, needed)
         == if exists j :: 0 <= j < |rs| && IsFalse(c, rs[j]) then Ok(Boolean(false))
            else if needed || Err(VarNeeded) in rs then Err(VarNeeded)
            else Ok(Boolean(true))
    decreases |rs|
  {
    if rs != [] {
      ConjunctionIs(c, rs[1..], needed);
      ConjunctionIs(c, rs[1..], true);
      assert rs == [rs[0]] + rs[1..];
    }
  }

  lemma {:induction false} DisjunctionIs(c: Scan, rs: seq<Result>, needed: bool)
    ensures Disjunction(c, rs, needed)
         == if exists j :: 0 <= j < |rs| && IsTrue(c, rs[j]) then Ok(Boolean(true))
            else if needed || Err(VarNeeded) in rs then Err(VarNeeded)
            else Ok(Boolean(false))
    decreases |rs|
  {
    if rs != [] {
      DisjunctionIs(c, rs[1..], needed);
      DisjunctionIs(c, rs[1..], true);
      assert rs == [rs[0]] + rs[1..];
    }
  }

  predicate SomeFalse(c: Scan, env: Env, es: seq<Expr>) {
    exists j :: 0 <= j < |es| && IsFalse(c, Eval(c, env, es[j]))
  }

  predicate SomeTrue(c: Scan, env: Env, es: seq<Expr>) {
    exists j :: 0 <= j < |es| && IsTrue(c, Eval(c, env, es[j]))
  }

  predicate SomeWaits(c: Scan, env: Env, es: seq<Expr>) {
    exists j :: 0 <= j < |es| && Eval(c, env, es[j]) == Err(VarNeeded)
  }

  /** A conjunction is false when some operand is, and else waits when some operand does; a disjunction is true when some
      operand is, and else waits when some operand does. */
  lemma Connectives(c: Scan, env: Env, es: seq<Expr>)
    ensures Eval(c, env, Conj(es))
         == if SomeFalse(c, env, es) then Ok(Boolean(false))
            else if SomeWaits(c, env, es) then Err(VarNeeded) else Ok(Boolean(true))
    ensures Eval(c, env, Disj(es))
         == if SomeTrue(c, env, es) then Ok(Boolean(true))
            else if SomeWaits(c, env, es) then Err(VarNeeded) else Ok(Boolean(false))
  {
    hide Eval, Conjunction, Disjunction, IsTrue, IsFalse;
    OperatorIs(c, env, Conj(es));
    OperatorIs(c, env, Disj(es));
    var rs, rs' := EvalOperands(c, env, Conj(es)), EvalOperands(c, env, Disj(es));
    assert |rs| == |rs'| == |es| && forall j :: 0 <= j < |es| ==> rs[j] == Eval(c, env, es[j]) == rs'[j];
    ConjunctionIs(c, rs, false);
    DisjunctionIs(c, rs', false);
  }

  // ----- The scan -----

  /** A file size is cut at the greatest integer; an entry point above it is undefined. */
  lemma ScanValues(c: Scan, env: Env)
    ensures Eval(c, env, Filesize) == match c.filesize
              case None => Err(Undefined)
              case Some(n) => Ok(Integer(if n > I64_MAX then I64_MAX else n))
    ensures Eval(c, env, Entrypoint) == match c.entrypoint
              case None => Err(Undefined)
              case Some(n) => if n > I64_MAX then Err(Undefined) else Ok(Integer(n))
  {
    hide Eval;
    OperatorIs(c, env, Filesize);
    OperatorIs(c, env, Entrypoint);
  }

  lemma ReadAndMatch(c: Scan, env: Env, ty: nat, regex: nat, e: Expr)
    ensures forall n: i64 :: IsInt(c, env, e, n) ==>
              Eval(c, env, Expr.ReadInteger(ty, e)) ==
              if n >= 0 && c.readInteger(ty, n).Some? then Ok(Integer(c.readInteger(ty, n).value)) else Err(Undefined)
    ensures forall s :: IsBytes(c, env, e, s) ==> Answers(c, env, MatchesRe(e, regex), c.isMatch(regex, s))
  {
    hide Eval;
    OneOperand(c, env, Expr.ReadInteger(ty, e), e);
    OneOperand(c, env, MatchesRe(e, regex), e);
  }

  lemma Constants(c: Scan, env: Env, v: Value, i: nat)
    ensures Eval(c, env, Const(v)) == Ok(v)
    ensures i < |c.rules| ==> Answers(c, env, RuleResult(i), c.rules[i])
    ensures i < |c.externals| ==> Eval(c, env, ExternalSymbol(i)) == Ok(c.externals[i])
  {
    hide Eval;
    OperatorIs(c, env, Const(v));
    OperatorIs(c, env, RuleResult(i));
    OperatorIs(c, env, ExternalSymbol(i));
  }

  /** An operand without a value takes its place: the first such one, for operands that can be looked at in order. */
  lemma PoisonOfOperands(c: Scan, env: Env, e: Expr, l: Expr, r: Expr)
    requires IsOperator(e) && Operands(e) == [l, r] && !e.Conj? && !e.Disj?
    ensures Eval(c, env, l).Err? ==> Eval(c, env, e) == Eval(c, env, l)
    ensures var x, y := Eval(c, env, l), Eval(c, env, r);
            x.Ok? && y.Err? && (x.v.Integer? || (x.v.Bytes? && e.StringOperation?) || e.Arithmetic? || e.Compare? || e.Equals?)
            && (e.StringOperation? ==> x.v.Bytes?)
            ==> Eval(c, env, e) == y
  {
    hide Eval;
    TwoOperands(c, env, e, l, r);
  }

  lemma PoisonOfOperand(c: Scan, env: Env, e: Expr, x: Expr)
    requires IsOperator(e) && Operands(e) == [x] && !e.Conj? && !e.Disj? && !e.IsDefined? && Eval(c, env, x).Err?
    ensures Eval(c, env, e) == Eval(c, env, x)
  {
    hide Eval;
    OneOperand(c, env, e, x);
  }

  // ----- Variables -----

  /** The matches that this variable, or the one selected, has. */
  predicate Has(env: Env, x: VariableIndex, ms: seq<StringMatch>) {
    var i := if x.Some? then x else env.selected;
    env.matches.Some? && i.Some? && i.value < |env.matches.value| && env.matches.value[i.value] == ms
  }

  /** Where a match is: no more than the greatest address. */
  function At(m: StringMatch): nat {
    if m.base + m.offset > USIZE_MAX then USIZE_MAX else m.base + m.offset
  }

  /** The matches that start between two addresses. */
  function Within(ms: seq<StringMatch>, from: int, to: int): set<nat> {
    set k: nat | k < |ms| && from <= At(ms[k]) <= to
  }

  function AreWithin(ms: seq<StringMatch>, from: nat, to: nat): (bs: seq<bool>)
    ensures |bs| == |ms| && forall j :: 0 <= j < |ms| ==> bs[j] == (from <= At(ms[j]) <= to)
  {
    seq(|ms|, j requires 0 <= j < |ms| => from <= At(ms[j]) <= to)
  }

  lemma {:induction false} CountIsTrue(ms: seq<StringMatch>, from: nat, to: nat)
    ensures CountIn(ms, from, to) == S.CountTrue(AreWithin(ms, from, to))
    decreases |ms|
  {
    if ms != [] {
      CountIsTrue(ms[1..], from, to);
      assert AreWithin(ms, from, to)[1..] == AreWithin(ms[1..], from, to);
    }
  }

  lemma CountIsCard(ms: seq<StringMatch>, from: nat, to: nat)
    ensures CountIn(ms, from, to) == |Within(ms, from, to)|
  {
    CountIsTrue(ms, from, to);
    S.TruesAreCounted(AreWithin(ms, from, to));
    assert Within(ms, from, to) == S.Trues(AreWithin(ms, from, to));
  }

  /** Counts are modulo 2^32. A negative bound of a count is zero. */
  lemma Counts(c: Scan, env: Env, x: VariableIndex, ms: seq<StringMatch>, l: Expr, r: Expr, from: i64, to: i64)
    requires Has(env, x, ms) && IsInt(c, env, l, from) && IsInt(c, env, r, to)
    ensures IsInt(c, env, Count(x), |ms| % 0x1_0000_0000)
    ensures IsInt(c, env, CountInRange(x, l, r),
                  |Within(ms, if from < 0 then 0 else from, if to < 0 then 0 else to)| % 0x1_0000_0000)
  {
    hide Eval;
    OperatorIs(c, env, Count(x));
    TwoOperands(c, env, CountInRange(x, l, r), l, r);
    CountIsCard(ms, if from < 0 then 0 else from, if to < 0 then 0 else to);
  }

  /** The `n`th match, counted from one, if there is one and the answer is an integer. */
  lemma Occurrences(c: Scan, env: Env, x: VariableIndex, ms: seq<StringMatch>, e: Expr, n: i64)
    requires Has(env, x, ms) && IsInt(c, env, e, n)
    ensures Eval(c, env, Offset(x, e))
         == if 1 <= n <= |ms| && ms[n - 1].base + ms[n - 1].offset <= I64_MAX
            then Ok(Integer(ms[n - 1].base + ms[n - 1].offset)) else Err(Undefined)
    ensures Eval(c, env, Length(x, e))
         == if 1 <= n <= |ms| && ms[n - 1].length <= I64_MAX then Ok(Integer(ms[n - 1].length)) else Err(Undefined)
  {
    hide Eval;
    OneOperand(c, env, Offset(x, e), e);
    OneOperand(c, env, Length(x, e), e);
  }

  /** Whether the variable matches, matches at an address, or between two. */
  lemma Variables(c: Scan, env: Env, x: VariableIndex, ms: seq<StringMatch>, l: Expr, r: Expr, from: i64, to: i64)
    requires Has(env, x, ms) && IsInt(c, env, l, from) && IsInt(c, env, r, to)
    ensures Answers(c, env, Variable(x), ms != [])
    ensures Answers(c, env, VariableAt(x, l), exists k :: 0 <= k < |ms| && At(ms[k]) == from)
    ensures Answers(c, env, VariableIn(x, l, r), 0 <= from && exists k :: 0 <= k < |ms| && from <= At(ms[k]) <= to)
  {
    hide Eval;
    OperatorIs(c, env, Variable(x));
    OneOperand(c, env, VariableAt(x, l), l);
    TwoOperands(c, env, VariableIn(x, l, r), l, r);
    assert forall m: StringMatch :: At(m) == Address(m);
  }

  /** Without the matches all of these wait for them, unless their operands already decide. */
  lemma VariablesWait(c: Scan, env: Env, x: VariableIndex, e: Expr, n: i64)
    requires env.matches.None? && (x.Some? || env.selected.Some?) && IsInt(c, env, e, n)
    ensures Eval(c, env, Count(x)) == Eval(c, env, Variable(x)) == Err(VarNeeded)
    ensures Eval(c, env, VariableAt(x, e)) == if n >= 0 then Err(VarNeeded) else Ok(Boolean(false))
  {
    hide Eval;
    OperatorIs(c, env, Count(x));
    OperatorIs(c, env, Variable(x));
    OneOperand(c, env, VariableAt(x, e), e);
  }

  lemma OccurrencesWait(c: Scan, env: Env, x: VariableIndex, e: Expr, n: i64)
    requires env.matches.None? && (x.Some? || env.selected.Some?) && IsInt(c, env, e, n)
    ensures Eval(c, env, Offset(x, e)) == Eval(c, env, Length(x, e)) == Err(if n >= 1 then VarNeeded else Undefined)
  {
    hide Eval;
    OneOperand(c, env, Offset(x, e), e);
    OneOperand(c, env, Length(x, e), e);
  }

  lemma RangesWait(c: Scan, env: Env, x: VariableIndex, l: Expr, r: Expr, from: i64, to: i64)
    requires env.matches.None? && (x.Some? || env.selected.Some?) && IsInt(c, env, l, from) && IsInt(c, env, r, to)
    ensures Eval(c, env, CountInRange(x, l, r)) == Err(VarNeeded)
    ensures Eval(c, env, VariableIn(x, l, r)) == if 0 <= from <= to then Err(VarNeeded) else Ok(Boolean(false))
  {
    hide Eval;
    TwoOperands(c, env, CountInRange(x, l, r), l, r);
    TwoOperands(c, env, VariableIn(x, l, r), l, r);
  }
}
