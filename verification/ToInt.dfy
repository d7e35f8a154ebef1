/** Integers read from text and written as text: `string.to_int` (`module/string.rs`) and `math.to_string`
    (`module/math.rs`). */
module ToInt {
  import opened Base

  // ----- Digits -----

  /** `char::to_digit` in base 36. */
  function DigitOf(c: byte): Option<nat> {
    if 48 <= c <= 57 then Some(c - 48)
    else if 97 <= c <= 122 then Some(c - 97 + 10)
    else if 65 <= c <= 90 then Some(c - 65 + 10)
    else None
  }

  predicate IsDigit(c: byte, base: nat) {
    DigitOf(c).Some? && DigitOf(c).value < base
  }

  predicate AllDigits(s: bytes, base: nat) {
    forall k :: 0 <= k < |s| ==> IsDigit(s[k], base)
  }

  /** The number that digits write, without any bound. */
  function NumberOf(s: bytes, base: nat): nat
    requires AllDigits(s, base)
  {
    if s == [] then 0 else NumberOf(s[..|s| - 1], base) * base + DigitOf(s[|s| - 1]).value
  }

  // ----- The text around the digits -----

  predicate IsSpace(c: byte) {
    c == 32 || c == 9 || c == 10 || c == 12 || c == 13
  }

  function SkipSpaces(s: bytes): bytes {
    if s != [] && IsSpace(s[0]) then SkipSpaces(s[1..]) else s
  }

  /** The sign, the base and the digits of a text. A base of zero is to be found from the text: `0x` and `0X` announce
      hexadecimal, another leading zero is octal, and is kept. */
  datatype Parsed = Parsed(negative: bool, base: nat, digits: bytes)

  function Parse(s: bytes, base: nat): Parsed {
    var t := SkipSpaces(s);
    var negative := [45] <= t;
    var u := if [45] <= t || [43] <= t then t[1..] else t;
    if base != 0 then Parsed(negative, base, u)
    else if [48, 120] <= u || [48, 88] <= u then Parsed(negative, 16, u[2..])
    else if [48] <= u then Parsed(negative, 8, u)
    else Parsed(negative, 10, u)
  }

  function Signed(negative: bool, n: nat): int {
    if negative then 0 - n as int else n
  }

  /** What the text stands for: nothing unless it has digits, and only digits, for a number of 64 bits. */
  function ValueOf(p: Parsed): Option<i64> {
    if p.digits == [] || !AllDigits(p.digits, p.base) then None
    else
      var n := Signed(p.negative, NumberOf(p.digits, p.base));
      if I64_MIN <= n <= I64_MAX then Some(n) else None
  }

  predicate ValidBase(base: Option<i64>) {
    base.None? || base.value == 0 || 2 <= base.value <= 36
  }

  // ----- What texts are read -----

  /** The character is a digit of this value: a figure, or a letter of either case. */
  predicate DigitIs(c: byte, d: nat) {
    if d < 10 then c == '0' as int + d else d < 36 && (c == 'a' as int + d - 10 || c == 'A' as int + d - 10)
  }

  lemma DigitOfIs(c: byte, d: nat)
    ensures DigitOf(c) == Some(d) <==> DigitIs(c, d)
  {
  }

  predicate AreSpaces(s: bytes) {
    forall k :: 0 <= k < |s| ==>
      || s[k] == ' ' as int || s[k] == '\t' as int || s[k] == '\n' as int || s[k] == '\r' as int || s[k] == 12
  }

  ghost predicate AreDigits(s: bytes, base: nat) {
    s != [] && forall k :: 0 <= k < |s| ==> InBase(s[k], base)
  }

  ghost predicate InBase(c: byte, base: nat) {
    exists d: nat :: d < base && DigitIs(c, d)
  }

  const MINUS: bytes := ['-' as int]
  const PLUS: bytes := ['+' as int]
  const HEX: bytes := ['0' as int, 'x' as int]
  const UPPER_HEX: bytes := ['0' as int, 'X' as int]

  /** A notation of integers: spaces, a sign, a prefix that tells the base when it is not given, and digits. */
  ghost predicate Notation(base: nat, spaces: bytes, sign: bytes, prefix: bytes, b: nat, digits: bytes) {
    && AreSpaces(spaces) && (sign == [] || sign == MINUS || sign == PLUS) && AreDigits(digits, b)
    && if base != 0 then prefix == [] && b == base
       else if prefix == [] then b == if digits[0] == '0' as int then 8 else 10
       else (prefix == HEX || prefix == UPPER_HEX) && b == 16
  }

  /** The text is a notation of this number. */
  ghost predicate Reads(s: bytes, base: nat, v: i64) {
    exists spaces, sign, prefix, b: nat, digits ::
      Notation(base, spaces, sign, prefix, b, digits) && IsNotation(s, v, spaces, sign, prefix, b, digits)
  }

  predicate IsNotation(s: bytes, v: i64, spaces: bytes, sign: bytes, prefix: bytes, b: nat, digits: bytes) {
    s == spaces + (sign + (prefix + digits)) && AllDigits(digits, b) && v == Signed(sign == MINUS, NumberOf(digits, b))
  }

  lemma DigitsAre(s: bytes, base: nat)
    requires base <= 36
    ensures AreDigits(s, base) <==> s != [] && AllDigits(s, base)
  {
    forall k | 0 <= k < |s| ensures InBase(s[k], base) <==> IsDigit(s[k], base) { InBaseIs(s[k], base); }
  }

  lemma InBaseIs(c: byte, base: nat)
    requires base <= 36
    ensures InBase(c, base) <==> IsDigit(c, base)
  {
    if IsDigit(c, base) { DigitOfIs(c, DigitOf(c).value); }
    if InBase(c, base) {
      var d: nat :| d < base && DigitIs(c, d);
      DigitOfIs(c, d);
    }
  }

  lemma {:induction false} SpacesSkipped(spaces: bytes, t: bytes)
    requires AreSpaces(spaces) && (t != [] ==> !IsSpace(t[0]))
    ensures SkipSpaces(spaces + t) == t
    decreases |spaces|
  {
    if spaces == [] {
      assert [] + t == t;
    } else {
      assert (spaces + t)[1..] == spaces[1..] + t;
      SpacesSkipped(spaces[1..], t);
    }
  }

  lemma {:induction false} SpacesBefore(s: bytes) returns (spaces: bytes)
    ensures AreSpaces(spaces) && s == spaces + SkipSpaces(s)
    ensures SkipSpaces(s) != [] ==> !IsSpace(SkipSpaces(s)[0])
    decreases |s|
  {
    if s != [] && IsSpace(s[0]) {
      var rest := SpacesBefore(s[1..]);
      spaces := [s[0]] + rest;
    } else {
      spaces := [];
    }
  }

  /** The sign, and what comes after it. */
  function SignOf(t: bytes): bytes {
    if MINUS <= t then MINUS else if PLUS <= t then PLUS else []
  }

  lemma ParseSigned(s: bytes, base: nat, u: bytes, sign: bytes)
    requires SkipSpaces(s) == sign + u && (sign == MINUS || sign == PLUS || (sign == [] && !(MINUS <= u) && !(PLUS <= u)))
    ensures Parse(s, base) ==
      if base != 0 then Parsed(sign == MINUS, base, u)
      else if HEX <= u || UPPER_HEX <= u then Parsed(sign == MINUS, 16, u[2..])
      else if u != [] && u[0] == '0' as int then Parsed(sign == MINUS, 8, u)
      else Parsed(sign == MINUS, 10, u)
  {
    var t := SkipSpaces(s);
    if sign == [] { assert t == u; } else { assert t[1..] == u && t[0] == sign[0]; }
  }

  lemma SignSplits(t: bytes)
    ensures var sign := SignOf(t);
            && sign <= t && (sign == MINUS || sign == PLUS || sign == [])
            && (sign == [] ==> !(MINUS <= t) && !(PLUS <= t))
  {
  }

  /** A notation is parsed into its parts. */
  lemma NotationParses(s: bytes, base: nat, spaces: bytes, sign: bytes, prefix: bytes, b: nat, digits: bytes)
    requires Notation(base, spaces, sign, prefix, b, digits) && b <= 36 && s == spaces + (sign + (prefix + digits))
    ensures Parse(s, base) == Parsed(sign == MINUS, b, digits)
  {
    hide SkipSpaces;
    var u := prefix + digits;
    DigitsAre(digits, b);
    assert IsDigit(digits[0], b);
    if prefix == [] { assert u == digits; }
    assert u[0] == (if prefix == [] then digits[0] else prefix[0]);
    assert (sign + u)[0] == if sign == [] then u[0] else sign[0];
    SpacesSkipped(spaces, sign + u);
    ParseSigned(s, base, u, sign);
    if prefix == [] && base == 0 {
      if |digits| >= 2 { assert IsDigit(digits[1], b); }
    } else if base == 0 {
      assert u[2..] == digits && u[..2] == prefix;
    }
  }

  /** A text that has a value is a notation of it, and no other text has one. */
  lemma ValueIff(s: bytes, base: nat, v: i64)
    requires base == 0 || 2 <= base <= 36
    ensures ValueOf(Parse(s, base)) == Some(v) <==> Reads(s, base, v)
  {
    hide Parse, SkipSpaces, NumberOf;
    if Reads(s, base, v) {
      var spaces, sign, prefix, b: nat, digits :|
        Notation(base, spaces, sign, prefix, b, digits) && IsNotation(s, v, spaces, sign, prefix, b, digits);
      NotationParses(s, base, spaces, sign, prefix, b, digits);
    }
    if ValueOf(Parse(s, base)) == Some(v) { ValueReads(s, base, v); }
  }

  /** The text is read as the number that it is a notation of, if the base is one and there is such a number. */
  ghost predicate ReadsAs(s: bytes, base: Option<i64>, r: Option<i64>) {
    if ValidBase(base) then forall v: i64 :: r == Some(v) <==> Reads(s, if base.Some? then base.value else 0, v)
    else r == None
  }

  lemma TextReads(s: bytes, base: Option<i64>)
    ensures ReadsAs(s, base, if ValidBase(base) then ValueOf(Parse(s, if base.Some? then base.value else 0)) else None)
  {
    hide Parse, ValueOf, Reads;
    if ValidBase(base) { forall v: i64 { ValueIff(s, if base.Some? then base.value else 0, v); } }
  }

  lemma ValueReads(s: bytes, base: nat, v: i64)
    requires (base == 0 || 2 <= base <= 36) && ValueOf(Parse(s, base)) == Some(v)
    ensures Reads(s, base, v)
  {
    hide SkipSpaces, NumberOf, Parse, SignOf, AreSpaces, AreDigits, AllDigits;
    var p := Parse(s, base);
    var spaces := SpacesBefore(s);
    var t := SkipSpaces(s);
    var sign := SignOf(t);
    SignSplits(t);
    var u := t[|sign|..];
    assert t == sign + u && (sign == [] ==> t == u);
    ParseSigned(s, base, u, sign);
    var prefix: bytes := if base == 0 && (HEX <= u || UPPER_HEX <= u) then u[..2] else [];
    assert u == prefix + p.digits;
    DigitsAre(p.digits, p.base);
    assert Notation(base, spaces, sign, prefix, p.base, p.digits);
    assert IsNotation(s, v, spaces, sign, prefix, p.base, p.digits);
  }

  // ----- The loop -----

  /** An overflow on the way is an overflow at the end. */
  lemma {:induction false} NumberGrows(s: bytes, base: nat, k: nat)
    requires base > 0 && AllDigits(s, base) && k <= |s|
    ensures NumberOf(s[..k], base) <= NumberOf(s, base)
    decreases |s| - k
  {
    if k == |s| {
      assert s[..k] == s;
    } else {
      assert s[..k + 1][..k] == s[..k];
      NumberGrows(s, base, k + 1);
      Grows(NumberOf(s[..k], base), base);
    }
  }

  lemma Grows(n: nat, base: nat)
    requires base > 0
    ensures n <= n * base
  {
  }

  lemma NumberStep(s: bytes, base: nat, k: nat)
    requires k < |s| && AllDigits(s[..k + 1], base)
    ensures AllDigits(s[..k], base)
    ensures NumberOf(s[..k + 1], base) == NumberOf(s[..k], base) * base + DigitOf(s[k]).value
  {
    assert s[..k + 1][..k] == s[..k] && s[..k + 1][k] == s[k];
    assert forall j :: 0 <= j < k ==> s[..k][j] == s[..k + 1][j];
  }

  function CheckedI64(n: int): Option<i64> {
    if I64_MIN <= n <= I64_MAX then Some(n) else None
  }

  /** The digits one at a time, each multiplication and addition checked. */
  method ReadDigits(p: Parsed) returns (r: Option<i64>)
    requires p.base >= 2
    ensures r == ValueOf(p)
  {
    var s, base := p.digits, p.base;
    if s == [] { return None; }
    var res: i64 := 0;
    for k := 0 to |s|
      invariant AllDigits(s[..k], base) && res == Signed(p.negative, NumberOf(s[..k], base))
    {
      if !IsDigit(s[k], base) { return None; }
      var c := DigitOf(s[k]).value;
      assert AllDigits(s[..k + 1], base);
      NumberStep(s, base, k);
      OverflowLasts(p, k);
      var product := CheckedI64(res * base);
      if product.None? { return None; }
      var sum := CheckedI64(if p.negative then product.value - c else product.value + c);
      if sum.None? { return None; }
      res := sum.value;
    }
    assert s[..|s|] == s;
    return Some(res);
  }

  /** Out of bounds after this digit, or after the multiplication before it, is out of bounds at the end. */
  lemma OverflowLasts(p: Parsed, k: nat)
    requires p.base >= 2 && k < |p.digits| && AllDigits(p.digits[..k + 1], p.base)
    requires AllDigits(p.digits[..k], p.base)
    ensures var n := NumberOf(p.digits[..k], p.base);
            && Signed(p.negative, n) * p.base == Signed(p.negative, n * p.base)
            && (CheckedI64(Signed(p.negative, n * p.base)).None? ==> ValueOf(p).None?)
    ensures CheckedI64(Signed(p.negative, NumberOf(p.digits[..k + 1], p.base))).None? ==> ValueOf(p).None?
  {
    NumberStep(p.digits, p.base, k);
    if AllDigits(p.digits, p.base) { NumberGrows(p.digits, p.base, k + 1); }
    Sign(p.negative, NumberOf(p.digits[..k], p.base), p.base);
  }

  lemma Sign(negative: bool, n: nat, base: nat)
    ensures Signed(negative, n) * base == Signed(negative, n * base)
  {
  }

  /** `string.to_int`: without a base, it is found from the text. */
  method ToInt(s: bytes, base: Option<i64>) returns (r: Option<i64>)
    ensures r == if ValidBase(base) then ValueOf(Parse(s, if base.Some? then base.value else 0)) else None
    ensures ReadsAs(s, base, r)
  {
    hide ReadsAs, ValueOf, Signed;
    TextReads(s, base);
    var t := s;
    while t != [] && IsSpace(t[0])
      invariant SkipSpaces(t) == SkipSpaces(s)
    {
      t := t[1..];
    }
    var b: nat := 0;
    if base.Some? {
      if !(base.value == 0 || 2 <= base.value <= 36) { return None; }
      b := base.value;
    }
    var negative := false;
    if [45] <= t {
      t := t[1..];
      negative := true;
    } else if [43] <= t {
      t := t[1..];
    }
    if b == 0 {
      if [48, 120] <= t || [48, 88] <= t {
        b := 16;
        t := t[2..];
      } else if [48] <= t {
        b := 8;
      } else {
        b := 10;
      }
    }
    r := ReadDigits(Parsed(negative, b, t));
  }

  // ----- Writing -----

  function DigitChar(d: nat): byte
    requires d < 16
  {
    if d < 10 then 48 + d else 97 + (d - 10)
  }

  /** The digits of a number, the most significant first. */
  function Digits(n: nat, base: nat): (s: bytes)
    requires 2 <= base <= 16
    ensures s != [] && AllDigits(s, base)
  {
    if n < base then
      DigitCharIs(n, base);
      [DigitChar(n)]
    else
      DigitCharIs(n % base, base);
      Digits(n / base, base) + [DigitChar(n % base)]
  }

  /** `math.to_string`: in base 10 with a sign; in bases 16 and 8, the bits of the two's complement. */
  function ToString(v: i64, base: nat): bytes
    requires base == 10 || base == 16 || base == 8
  {
    if base == 10 then (if v < 0 then [45] + Digits(0 - v as int, 10) else Digits(v, 10))
    else Digits(if v < 0 then v + 0x1_0000_0000_0000_0000 else v, base)
  }

  lemma {:induction false} DigitsAreNumber(n: nat, base: nat)
    requires 2 <= base <= 16
    ensures NumberOf(Digits(n, base), base) == n
    decreases n
  {
    hide AllDigits, NumberOf, Digits, DigitChar, DigitOf, IsDigit;
    if n < base {
      DigitsOfOne(n, base);
    } else {
      var q, r := DigitsStep(n, base);
      DigitsAreNumber(q, base);
      DigitCharIs(r, base);
      NumberOfSnoc(Digits(q, base), DigitChar(r), base, r);
    }
  }

  lemma DigitsOfOne(n: nat, base: nat)
    requires 2 <= base <= 16 && n < base
    ensures NumberOf(Digits(n, base), base) == n
  {
    NumberOfNothing(base);
    DigitCharIs(n, base);
    NumberOfSnoc([], DigitChar(n), base, n);
    assert [] + [DigitChar(n)] == [DigitChar(n)];
  }

  /** The last digit, and the number that the others write. */
  lemma DigitsStep(n: nat, base: nat) returns (q: nat, r: nat)
    requires 2 <= base <= 16 && n >= base
    ensures q < n && r < base && q * base + r == n
    ensures Digits(n, base) == Digits(q, base) + [DigitChar(r)]
  {
    hide AllDigits, DigitChar;
    q, r := n / base, n % base;
    Recompose(n, base);
  }

  lemma NumberOfNothing(base: nat)
    ensures AllDigits([], base) && NumberOf([], base) == 0
  {
  }

  /** One more digit, of value `d`. */
  lemma NumberOfSnoc(s: bytes, last: byte, base: nat, d: nat)
    requires AllDigits(s, base) && DigitOf(last) == Some(d) && IsDigit(last, base)
    ensures AllDigits(s + [last], base) && NumberOf(s + [last], base) == NumberOf(s, base) * base + d
  {
    var t := s + [last];
    assert t[..|t| - 1] == s && t[|t| - 1] == last;
  }

  lemma DigitCharIs(d: nat, base: nat)
    requires d < base <= 16
    ensures DigitOf(DigitChar(d)) == Some(d) && IsDigit(DigitChar(d), base)
  {
  }

  lemma Recompose(n: nat, base: nat)
    requires base > 0
    ensures n / base * base + n % base == n
  {
  }

  /** The digits of a number other than zero start with a digit other than zero. */
  lemma {:induction false} NoLeadingZero(n: nat, base: nat)
    requires 2 <= base <= 16 && n > 0
    ensures Digits(n, base)[0] != 48
    decreases n
  {
    if n >= base {
      Quotient(n, base);
      NoLeadingZero(n / base, base);
    }
  }

  lemma Quotient(n: nat, base: nat)
    requires 2 <= base <= n
    ensures 0 < n / base
  {
  }

  lemma ParseDigits(s: bytes, base: nat)
    requires s != [] && AllDigits(s, base) && base > 0
    ensures Parse(s, base) == Parsed(false, base, s) && Parse([45] + s, base) == Parsed(true, base, s)
  {
    assert IsDigit(s[0], base);
    assert ([45] + s)[0] == 45 && ([45] + s)[1..] == s;
  }

  /** Reading back what was written in base 10 gives the number, the least one included. */
  lemma RoundTrip(v: i64)
    ensures ValueOf(Parse(ToString(v, 10), 10)) == Some(v)
  {
    var n: nat := if v < 0 then 0 - v as int else v;
    DigitsAreNumber(n, 10);
    ParseDigits(Digits(n, 10), 10);
  }

  /** And so does letting the base be found. */
  lemma RoundTripAnyBase(v: i64)
    ensures ValueOf(Parse(ToString(v, 10), 0)) == Some(v)
  {
    hide Digits, NumberOf, AllDigits, DigitOf;
    var n: nat := if v < 0 then 0 - v as int else v;
    var s := Digits(n, 10);
    if n == 0 {
      ZeroParses();
    } else {
      RoundTrip(v);
      FirstDigit(n, 10);
      assert [45] + s != [] && ([45] + s)[0] == 45 && ([45] + s)[1..] == s;
      ParseDecimal(s);
    }
  }

  lemma ZeroParses()
    ensures ValueOf(Parse(ToString(0, 10), 0)) == Some(0)
  {
    var s := Digits(0, 10);
    assert s == [48] && AllDigits(s, 8) && s[..0] == [];
    assert NumberOf(s, 8) == 0;
  }

  /** A number other than zero starts with a digit from 1 to 9. */
  lemma FirstDigit(n: nat, base: nat)
    requires 2 <= base <= 10 && n > 0
    ensures 48 < Digits(n, base)[0] < 58
  {
    NoLeadingZero(n, base);
    assert IsDigit(Digits(n, base)[0], base);
  }

  /** Such digits are found to be decimal. */
  lemma ParseDecimal(s: bytes)
    requires s != [] && 48 < s[0] < 58
    ensures Parse(s, 0) == Parse(s, 10) && Parse([45] + s, 0) == Parse([45] + s, 10)
  {
    assert ([45] + s)[0] == 45 && ([45] + s)[1..] == s;
  }

  /** In the other bases, exactly the numbers that are not negative are read back. */
  lemma RoundTripIff(v: i64, base: nat)
    requires base == 16 || base == 8
    ensures ValueOf(Parse(ToString(v, base), base)) == Some(v) <==> v >= 0
  {
    var n: nat := if v < 0 then v + 0x1_0000_0000_0000_0000 else v;
    DigitsAreNumber(n, base);
    ParseDigits(Digits(n, base), base);
  }
}
