/** Base64 at a byte offset (`matcher/base64.rs`): the characters that a string always has in the base64 of what holds it,
    by section 4 of RFC 4648. */
module Base64 {
  import opened Base

  /** The 64 characters; nothing says that they differ. */
  type Alphabet = a: bytes | |a| == 64 witness seq(64, _ => 0)

  // ----- Base64 of section 4 of RFC 4648 -----

  const PAD: byte := 61

  function PowerOfTwo(k: nat): (p: nat)
    requires k < 8
    ensures p > 0
  {
    [1, 2, 4, 8, 16, 32, 64, 128][k]
  }

  /** The `n`th bit, the most significant first; zeros follow the last byte. */
  function Bit(t: bytes, n: nat): (b: nat)
    ensures b <= 1
  {
    if n < 8 * |t| then t[n / 8] / PowerOfTwo(7 - n % 8) % 2 else 0
  }

  /** The number made of the six bits from the `n`th on. */
  function Six(t: bytes, n: nat): (v: nat)
    ensures v < 64
  {
    32 * Bit(t, n) + 16 * Bit(t, n + 1) + 8 * Bit(t, n + 2) + 4 * Bit(t, n + 3) + 2 * Bit(t, n + 4) + Bit(t, n + 5)
  }

  /** Groups of 24 bits make four characters each; the last group is completed with zero bits, and padded. */
  function Encoded(t: bytes, alphabet: Alphabet): (r: bytes)
    ensures |r| == 4 * ((|t| + 2) / 3)
  {
    seq(4 * ((|t| + 2) / 3), i requires 0 <= i < 4 * ((|t| + 2) / 3) => if 6 * i < 8 * |t| then alphabet[Six(t, 6 * i)] else PAD)
  }

  // ----- The characters of a string at an offset -----

  /** The first bit of the string that starts a character, when the string starts at this offset in a group. */
  function FirstBit(k: nat): nat
    requires k < 3
  {
    if k == 0 then 0 else if k == 1 then 4 else 2
  }

  /** How many characters have all their bits in `n` bytes at this offset. */
  function NbChars(n: nat, k: nat): nat
    requires k < 3
  {
    if 8 * n < FirstBit(k) then 0 else (8 * n - FirstBit(k)) / 6
  }

  /** Halving seven times. */
  lemma Halves(a: byte)
    ensures a == 2 * (a / 2) + a % 2 && a / 2 == 2 * (a / 4) + a / 2 % 2
    ensures a / 4 == 2 * (a / 8) + a / 4 % 2 && a / 8 == 2 * (a / 16) + a / 8 % 2
    ensures a / 16 == 2 * (a / 32) + a / 16 % 2 && a / 32 == 2 * (a / 64) + a / 32 % 2
    ensures a / 64 == 2 * (a / 128) + a / 64 % 2 && a / 128 <= 1
  {
    assert a / 2 / 2 == a / 4;
    assert a / 4 / 2 == a / 8;
    assert a / 8 / 2 == a / 16;
    assert a / 16 / 2 == a / 32;
    assert a / 32 / 2 == a / 64;
    assert a / 64 / 2 == a / 128;
  }

  /** The first and the last bits of a byte. */
  lemma Parts(a: byte)
    ensures a / 4 == 32 * (a / 128) + 16 * (a / 64 % 2) + 8 * (a / 32 % 2) + 4 * (a / 16 % 2) + 2 * (a / 8 % 2) + a / 4 % 2
    ensures a / 16 == 8 * (a / 128) + 4 * (a / 64 % 2) + 2 * (a / 32 % 2) + a / 16 % 2
    ensures a / 64 == 2 * (a / 128) + a / 64 % 2
    ensures a % 4 == 2 * (a / 2 % 2) + a % 2
    ensures a % 16 == 8 * (a / 8 % 2) + 4 * (a / 4 % 2) + 2 * (a / 2 % 2) + a % 2
    ensures a % 64 == 32 * (a / 32 % 2) + 16 * (a / 16 % 2) + 8 * (a / 8 % 2) + 4 * (a / 4 % 2) + 2 * (a / 2 % 2) + a % 2
  {
    Halves(a);
    Remainders(a, a / 4, a / 16, a / 64);
  }

  lemma Remainders(a: byte, q4: nat, q16: nat, q64: nat)
    requires q4 == a / 4 && q16 == a / 16 && q64 == a / 64
    ensures a % 4 == a - 4 * q4 && a % 16 == a - 16 * q16 && a % 64 == a - 64 * q64
  {
  }

  lemma Six0(t: bytes, q: nat)
    requires q < |t|
    ensures Six(t, 8 * q) == t[q] / 4
  {
    hide Bit, Six;
    BitsOfByte(t, q);
    Parts(t[q]);
    SixIs(t, 8 * q);
  }

  lemma Six1(t: bytes, q: nat)
    requires q + 1 < |t|
    ensures Six(t, 8 * q + 6) == t[q] % 4 * 16 + t[q + 1] / 16
  {
    hide Bit, Six;
    BitsOfByte(t, q);
    BitsOfByte(t, q + 1);
    Parts(t[q]);
    Parts(t[q + 1]);
    SixIs(t, 8 * q + 6);
  }

  lemma Six2(t: bytes, q: nat)
    requires q + 2 < |t|
    ensures Six(t, 8 * q + 12) == t[q + 1] % 16 * 4 + t[q + 2] / 64
  {
    hide Bit, Six;
    BitsOfByte(t, q + 1);
    BitsOfByte(t, q + 2);
    Parts(t[q + 1]);
    Parts(t[q + 2]);
    SixIs(t, 8 * q + 12);
  }

  lemma Six3(t: bytes, q: nat)
    requires q + 2 < |t|
    ensures Six(t, 8 * q + 18) == t[q + 2] % 64
  {
    hide Bit, Six;
    BitsOfByte(t, q + 2);
    Parts(t[q + 2]);
    SixIs(t, 8 * q + 18);
  }

  /** The bits of the bytes of a group. */
  lemma SixOfBytes(t: bytes, q: nat)
    requires q < |t|
    ensures Six(t, 8 * q) == t[q] / 4
    ensures q + 1 < |t| ==> Six(t, 8 * q + 6) == t[q] % 4 * 16 + t[q + 1] / 16
    ensures q + 2 < |t| ==> Six(t, 8 * q + 12) == t[q + 1] % 16 * 4 + t[q + 2] / 64
    ensures q + 2 < |t| ==> Six(t, 8 * q + 18) == t[q + 2] % 64
  {
    hide Six;
    Six0(t, q);
    if q + 1 < |t| { Six1(t, q); }
    if q + 2 < |t| {
      Six2(t, q);
      Six3(t, q);
    }
  }

  lemma SixIs(t: bytes, n: nat)
    ensures Six(t, n) == 32 * Bit(t, n) + 16 * Bit(t, n + 1) + 8 * Bit(t, n + 2) + 4 * Bit(t, n + 3)
                       + 2 * Bit(t, n + 4) + Bit(t, n + 5)
  {
  }

  lemma BitsOfByte(t: bytes, q: nat)
    requires q < |t|
    ensures Bit(t, 8 * q) == t[q] / 128 && Bit(t, 8 * q + 1) == t[q] / 64 % 2
    ensures Bit(t, 8 * q + 2) == t[q] / 32 % 2 && Bit(t, 8 * q + 3) == t[q] / 16 % 2
    ensures Bit(t, 8 * q + 4) == t[q] / 8 % 2 && Bit(t, 8 * q + 5) == t[q] / 4 % 2
    ensures Bit(t, 8 * q + 6) == t[q] / 2 % 2 && Bit(t, 8 * q + 7) == t[q] % 2
  {
    hide Bit;
    OneBit(t, q, 0);
    OneBit(t, q, 1);
    OneBit(t, q, 2);
    OneBit(t, q, 3);
    OneBit(t, q, 4);
    OneBit(t, q, 5);
    OneBit(t, q, 6);
    OneBit(t, q, 7);
    TopBit(t[q]);
  }

  lemma TopBit(a: byte)
    ensures a / 128 % 2 == a / 128 && a / 1 == a
  {
  }

  lemma OneBit(t: bytes, q: nat, k: nat)
    requires q < |t| && k < 8
    ensures Bit(t, 8 * q + k) == t[q] / PowerOfTwo(7 - k) % 2
  {
    assert (8 * q + k) / 8 == q && (8 * q + k) % 8 == k;
  }

  lemma DivideBy16(v: nat, q: nat, r: nat)
    requires v == 16 * q + r && r < 16
    ensures v / 16 == q && v % 16 == r
  {
  }

  lemma DivideBy64(v: nat, q: nat, r: nat)
    requires v == 64 * q + r && r < 64
    ensures v / 64 == q && v % 64 == r
  {
  }

  lemma DivideBy1024(v: nat, q: nat, r: nat)
    requires v == 1024 * q + r && r < 1024
    ensures v / 1024 == q && v % 1024 == r
  {
  }

  lemma DivideBy4096(v: nat, q: nat, r: nat)
    requires v == 4096 * q + r && r < 4096
    ensures v / 4096 == q && v % 4096 == r
  {
  }

  lemma DivideBy262144(v: nat, q: nat, r: nat)
    requires v == 262144 * q + r && r < 262144
    ensures v / 262144 == q && v % 262144 == r
  {
  }

  /** The shifts and masks of the code, on 24 bits and on 16. */
  lemma Shifts(a: byte, b: byte, c: byte)
    ensures var v: nat := (a as nat * 256 + b) * 256 + c;
            && v / 262144 % 64 == a / 4 && v / 4096 % 64 == a % 4 * 16 + b / 16
            && v / 64 % 64 == b % 16 * 4 + c / 64 && v % 64 == c % 64
  {
    var v: nat := (a as nat * 256 + b) * 256 + c;
    var a4, a0, b16, b0, c64, c0 := a / 4, a % 4, b / 16, b % 16, c / 64, c % 64;
    assert a == 4 * a4 + a0 && b == 16 * b16 + b0 && c == 64 * c64 + c0;
    DivideBy262144(v, a4, a0 * 65536 + b * 256 + c);
    DivideBy4096(v, 64 * a4 + 16 * a0 + b16, b0 * 256 + c);
    DivideBy64(64 * a4 + 16 * a0 + b16, a4, 16 * a0 + b16);
    DivideBy64(v, 1024 * a + 4 * b + c64, c0);
    DivideBy64(1024 * a + 4 * b + c64, 16 * a + b16, 4 * b0 + c64);
  }

  lemma Shifts16(a: byte, b: byte)
    ensures var v: nat := a as nat * 256 + b;
            && v / 64 % 64 == a % 16 * 4 + b / 64 && v % 64 == b % 64
            && v / 1024 % 64 == a / 4 && v / 16 % 64 == a % 4 * 16 + b / 16
  {
    var v: nat := a as nat * 256 + b;
    var a4, a0, a16, a1, b64, b1, b16, b0 := a / 4, a % 4, a / 16, a % 16, b / 64, b % 64, b / 16, b % 16;
    assert a == 4 * a4 + a0 && a == 16 * a16 + a1 && b == 64 * b64 + b1 && b == 16 * b16 + b0;
    DivideBy64(v, 4 * a + b64, b1);
    DivideBy64(4 * a + b64, a16, 4 * a1 + b64);
    DivideBy1024(v, a4, a0 * 256 + b);
    DivideBy16(v, 16 * a + b16, b0);
    DivideBy64(16 * a + b16, a4, 16 * a0 + b16);
  }

  /** The characters that the string has for itself at this offset, or nothing for a string too short to have one. */
  function OwnChars(s: bytes, alphabet: Alphabet, offset: nat): Option<bytes> {
    var k := offset % 3;
    if (k == 1 && |s| < 2) || (k == 2 && s == []) then None
    else Some(seq<byte>(NbChars(|s|, k), i requires 0 <= i < NbChars(|s|, k) => alphabet[Six(s, FirstBit(k) + 6 * i)]))
  }

  lemma SpelledIsOwn(s: bytes, alphabet: Alphabet, offset: nat, r: bytes)
    requires OwnChars(s, alphabet, offset).Some? && |r| == NbChars(|s|, offset % 3)
    requires Spells(r, s, alphabet, FirstBit(offset % 3))
    ensures OwnChars(s, alphabet, offset) == Some(r)
  {
    hide Six;
    assert OwnChars(s, alphabet, offset).value == r;
  }

  /** `encode_base64`, with an alphabet. */
  method EncodeBase64(s: bytes, alphabet: Alphabet, offset: nat) returns (r: Option<bytes>)
    ensures r == OwnChars(s, alphabet, offset)
  {
    hide Six;
    var k := offset % 3;
    var res: bytes, q: nat := [], 0;
    if k == 1 {
      if |s| < 2 { return None; }
      var v: nat := s[0] as nat * 256 + s[1];
      Shifts16(s[0], s[1]);
      SixAtOffset1(s);
      res := [alphabet[v / 64 % 64], alphabet[v % 64]];
      q := 2;
    } else if k == 2 {
      if s == [] { return None; }
      SixAtOffset2(s);
      res := [alphabet[s[0] % 64]];
      q := 1;
    }
    while q + 3 <= |s|
      invariant q <= |s| && FirstBit(k) + 6 * |res| == 8 * q && Spells(res, s, alphabet, FirstBit(k))
    {
      var chars := EncodeGroup(s, q, alphabet);
      Extend(res, chars, s, alphabet, FirstBit(k), q);
      res := res + chars;
      q := q + 3;
    }
    var last := EncodeRemainder(s, q, alphabet);
    Extend(res, last, s, alphabet, FirstBit(k), q);
    SpelledIsOwn(s, alphabet, offset, res + last);
    return Some(res + last);
  }

  /** The characters that start at this bit of the string, one after the other. */
  predicate Spells(res: bytes, s: bytes, alphabet: Alphabet, from: nat) {
    forall i :: 0 <= i < |res| ==> res[i] == alphabet[Six(s, from + 6 * i)]
  }

  lemma Extend(res: bytes, chars: bytes, s: bytes, alphabet: Alphabet, from: nat, q: nat)
    requires Spells(res, s, alphabet, from) && from + 6 * |res| == 8 * q && Spells(chars, s, alphabet, 8 * q)
    ensures Spells(res + chars, s, alphabet, from)
  {
    hide Six;
    forall i | 0 <= i < |res + chars| ensures (res + chars)[i] == alphabet[Six(s, from + 6 * i)] {
      if i >= |res| { assert from + 6 * i == 8 * q + 6 * (i - |res|); }
    }
  }

  method EncodeGroup(s: bytes, q: nat, alphabet: Alphabet) returns (chars: bytes)
    requires q + 3 <= |s|
    ensures |chars| == 4 && Spells(chars, s, alphabet, 8 * q)
  {
    hide Six;
    var v: nat := (s[q] as nat * 256 + s[q + 1]) * 256 + s[q + 2];
    Shifts(s[q], s[q + 1], s[q + 2]);
    SixOfBytes(s, q);
    chars := [alphabet[v / 262144 % 64], alphabet[v / 4096 % 64], alphabet[v / 64 % 64], alphabet[v % 64]];
  }

  method EncodeRemainder(s: bytes, q: nat, alphabet: Alphabet) returns (chars: bytes)
    requires q <= |s| < q + 3
    ensures |chars| == |s| - q && Spells(chars, s, alphabet, 8 * q)
  {
    hide Six;
    chars := [];
    if q + 1 == |s| {
      SixOfBytes(s, q);
      chars := [alphabet[s[q] / 4 % 64]];
    } else if q + 2 == |s| {
      var v: nat := s[q] as nat * 256 + s[q + 1];
      Shifts16(s[q], s[q + 1]);
      SixOfBytes(s, q);
      chars := [alphabet[v / 1024 % 64], alphabet[v / 16 % 64]];
    }
  }

  lemma SixAtOffset1(s: bytes)
    requires |s| >= 2
    ensures Six(s, 4) == s[0] % 16 * 4 + s[1] / 64 && Six(s, 10) == s[1] % 64
  {
    hide Bit, Six;
    BitsOfByte(s, 0);
    BitsOfByte(s, 1);
    Parts(s[0]);
    Parts(s[1]);
    SixIs(s, 4);
    SixIs(s, 10);
  }

  lemma SixAtOffset2(s: bytes)
    requires s != []
    ensures Six(s, 2) == s[0] % 64
  {
    hide Bit, Six;
    BitsOfByte(s, 0);
    Parts(s[0]);
    SixIs(s, 2);
  }

  // ----- Whatever surrounds the string -----

  lemma BitsInside(p: bytes, s: bytes, x: bytes, n: nat)
    requires n < 8 * |s|
    ensures Bit(p + s + x, 8 * |p| + n) == Bit(s, n)
  {
    assert (8 * |p| + n) / 8 == |p| + n / 8 && (8 * |p| + n) % 8 == n % 8;
    assert (p + s + x)[|p| + n / 8] == s[n / 8];
  }

  lemma SixInside(p: bytes, s: bytes, x: bytes, n: nat)
    requires n + 6 <= 8 * |s|
    ensures Six(p + s + x, 8 * |p| + n) == Six(s, n)
  {
    hide Bit;
    BitsInside(p, s, x, n);
    BitsInside(p, s, x, n + 1);
    BitsInside(p, s, x, n + 2);
    BitsInside(p, s, x, n + 3);
    BitsInside(p, s, x, n + 4);
    BitsInside(p, s, x, n + 5);
  }

  /** Are all the bits of the `i`th character of the whole in the string that follows `before` bytes? */
  predicate WhollyInside(i: nat, before: nat, length: nat) {
    8 * before <= 6 * i && 6 * i + 6 <= 8 * (before + length)
  }

  /** The index, in the base64 of the whole, of the first character whose bits may all be in the string. */
  function FirstChar(before: nat): nat {
    (8 * before + FirstBit(before % 3)) / 6
  }

  lemma WhollyInsideIs(i: nat, before: nat, length: nat)
    ensures WhollyInside(i, before, length) <==>
              FirstChar(before) <= i < FirstChar(before) + NbChars(length, before % 3)
  {
    var g, k := before / 3, before % 3;
    assert before == 3 * g + k;
    assert 8 * before + FirstBit(k) == 6 * FirstChar(before) by {
      if k == 0 { assert 8 * before == 6 * (4 * g); }
      else if k == 1 { assert 8 * before + 4 == 6 * (4 * g + 2); }
      else { assert 8 * before + 2 == 6 * (4 * g + 3); }
    }
  }

  /** The result is the slice of the base64 of the whole made of precisely the characters whose six bits are all in the
      string, whatever comes before and after; there is none when the result is nothing. */
  lemma ContextFree(p: bytes, s: bytes, x: bytes, alphabet: Alphabet, r: bytes)
    requires OwnChars(s, alphabet, |p|) == Some(r)
    ensures var whole, first := Encoded(p + s + x, alphabet), FirstChar(|p|);
            && first + |r| <= |whole| && whole[first..first + |r|] == r
            && forall i: nat :: WhollyInside(i, |p|, |s|) <==> first <= i < first + |r|
  {
    hide Six;
    var whole, first, k := Encoded(p + s + x, alphabet), FirstChar(|p|), |p| % 3;
    forall i: nat ensures WhollyInside(i, |p|, |s|) <==> first <= i < first + |r| { WhollyInsideIs(i, |p|, |s|); }
    forall i | 0 <= i < |r| ensures first + i < |whole| && whole[first + i] == r[i] {
      var n := FirstBit(k) + 6 * i;
      WhollyInsideIs(first + i, |p|, |s|);
      WhollyInsideIs(first, |p|, |s|);
      FirstCharBit(|p|);
      assert 6 * (first + i) == 8 * |p| + n;
      SixInside(p, s, x, n);
      Fits(first + i, |p + s + x|);
    }
    FirstFits(|p|, |p + s + x|);
  }

  lemma FirstCharBit(before: nat)
    ensures 6 * FirstChar(before) == 8 * before + FirstBit(before % 3)
  {
    var g, k := before / 3, before % 3;
    if k == 0 { assert 8 * before == 6 * (4 * g); }
    else if k == 1 { assert 8 * before + 4 == 6 * (4 * g + 2); }
    else { assert 8 * before + 2 == 6 * (4 * g + 3); }
  }

  /** A character with all its bits in the bytes is not padding. */
  lemma Fits(i: nat, n: nat)
    requires 6 * i + 6 <= 8 * n
    ensures i < 4 * ((n + 2) / 3) && 6 * i < 8 * n
  {
  }

  lemma FirstFits(before: nat, n: nat)
    requires before <= n
    ensures FirstChar(before) <= 4 * ((n + 2) / 3)
  {
    FirstCharBit(before);
    var g := before / 3;
    assert (n + 2) / 3 >= (before + 2) / 3;
  }

  /** Nothing is returned only for a string too short to have a character of its own. */
  lemma NothingInside(before: nat, s: bytes, alphabet: Alphabet)
    requires OwnChars(s, alphabet, before).None?
    ensures forall i: nat :: !WhollyInside(i, before, |s|)
  {
    forall i: nat ensures !WhollyInside(i, before, |s|) { WhollyInsideIs(i, before, |s|); }
  }
}
