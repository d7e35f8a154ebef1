/** The literals of a variable, and what a match of one of them stands for (`matcher/mod.rs`). */
module Matching {
  import opened Base
  import opened Bits
  import opened Widener
  import B = Base64

  datatype Base64Modifiers = Base64Modifiers(ascii: bool, wide: bool, alphabet: B.Alphabet)

  /** `xor`: the least and the greatest key. */
  datatype Modifiers = Modifiers(fullword: bool, ascii: bool, wide: bool, nocase: bool, xor: Option<(byte, byte)>,
                                 base64: Option<Base64Modifiers>)

  datatype MatchType = Ascii | WideStandard | WideAlternate

  // ----- The literals of a text -----

  function XorByte(a: byte, key: byte): byte {
    assert Pow2(8) == 256 by { PowersOfTwo(); }
    Combine(BitXor, a, key, 8)
  }

  function Xor(s: bytes, key: byte): (r: bytes)
    ensures |r| == |s|
  {
    seq<byte>(|s|, k requires 0 <= k < |s| => XorByte(s[k], key))
  }

  /** The plain text first, then the wide one. */
  function Versions(value: bytes, m: Modifiers): seq<bytes> {
    if m.wide then if m.ascii then [value, Wide(value)] else [Wide(value)] else [value]
  }

  /** A text under each key, from the first. */
  function Keys(s: bytes, first: int, last: byte): seq<bytes>
    requires 0 <= first
    decreases last - first
  {
    if first > last then [] else [Xor(s, first)] + Keys(s, first + 1, last)
  }

  function KeysOfAll(literals: seq<bytes>, first: byte, last: byte): seq<bytes> {
    if literals == [] then [] else Keys(literals[0], first, last) + KeysOfAll(literals[1..], first, last)
  }

  /** One text in base64 at one offset: wide first. */
  function EncodedAt(s: bytes, b: Base64Modifiers, offset: nat): seq<bytes> {
    var r := B.OwnChars(s, b.alphabet, offset);
    if r.None? then []
    else (if b.wide || !b.ascii then [Wide(r.value)] else []) + (if b.ascii then [r.value] else [])
  }

  function EncodedAll(literals: seq<bytes>, b: Base64Modifiers): seq<bytes> {
    if literals == [] then []
    else EncodedAt(literals[0], b, 0) + EncodedAt(literals[0], b, 1) + EncodedAt(literals[0], b, 2) + EncodedAll(literals[1..], b)
  }

  function LiteralsOf(value: bytes, m: Modifiers): seq<bytes> {
    if m.xor.Some? then KeysOfAll(Versions(value, m), m.xor.value.0, m.xor.value.1)
    else if m.base64.Some? then EncodedAll(Versions(value, m), m.base64.value)
    else Versions(value, m)
  }

  /** `Matcher::new_bytes` */
  method NewBytes(value: bytes, m: Modifiers) returns (literals: seq<bytes>)
    ensures literals == LiteralsOf(value, m)
  {
    literals := [];
    if m.wide {
      var wide := WidenLiteral(value);
      if m.ascii { literals := literals + [value]; }
      literals := literals + [wide];
    } else {
      literals := literals + [value];
    }
    assert literals == Versions(value, m);
    if m.xor.Some? {
      literals := XorLiterals(literals, m.xor.value.0, m.xor.value.1);
    } else if m.base64.Some? {
      literals := EncodeLiterals(literals, m.base64.value);
    }
  }

  lemma OneMoreKey(r: seq<bytes>, s: bytes, key: int, last: byte)
    requires 0 <= key <= last
    ensures r + Keys(s, key, last) == r + [Xor(s, key)] + Keys(s, key + 1, last)
  {
    hide Xor;
    assert r + ([Xor(s, key)] + Keys(s, key + 1, last)) == r + [Xor(s, key)] + Keys(s, key + 1, last);
  }

  lemma NoMoreKeys(r: seq<bytes>, s: bytes, key: int, last: byte)
    requires 0 <= key && key > last
    ensures r + Keys(s, key, last) == r
  {
  }

  lemma OneMoreLiteral(r: seq<bytes>, literals: seq<bytes>, j: nat, first: byte, last: byte)
    requires j < |literals|
    ensures r + KeysOfAll(literals[j..], first, last)
         == r + Keys(literals[j], first, last) + KeysOfAll(literals[j + 1..], first, last)
  {
    hide Keys;
    assert literals[j..][0] == literals[j] && literals[j..][1..] == literals[j + 1..];
  }

  method XorLiterals(literals: seq<bytes>, first: byte, last: byte) returns (r: seq<bytes>)
    ensures r == KeysOfAll(literals, first, last)
  {
    hide Xor, Keys;
    r := [];
    assert literals[0..] == literals;
    for j := 0 to |literals|
      invariant r + KeysOfAll(literals[j..], first, last) == KeysOfAll(literals, first, last)
    {
      OneMoreLiteral(r, literals, j, first, last);
      ghost var before := r;
      var key: int := first;
      while key <= last
        invariant 0 <= key && r + Keys(literals[j], key, last) == before + Keys(literals[j], first, last)
        decreases last - key
      {
        OneMoreKey(r, literals[j], key, last);
        r := r + [Xor(literals[j], key)];
        key := key + 1;
      }
      NoMoreKeys(r, literals[j], key, last);
    }
    assert r + [] == r;
  }

  method EncodeLiterals(literals: seq<bytes>, b: Base64Modifiers) returns (r: seq<bytes>)
    ensures r == EncodedAll(literals, b)
  {
    hide EncodedAt;
    r := [];
    assert literals[0..] == literals;
    for j := 0 to |literals|
      invariant r + EncodedAll(literals[j..], b) == EncodedAll(literals, b)
    {
      var s := literals[j];
      assert literals[j..][0] == s && literals[j..][1..] == literals[j + 1..];
      var x0 := EncodeAt(s, b, 0);
      var x1 := EncodeAt(s, b, 1);
      var x2 := EncodeAt(s, b, 2);
      FourParts(r, x0, x1, x2, EncodedAll(literals[j + 1..], b));
      r := r + x0 + x1 + x2;
    }
    assert r + [] == r;
  }

  lemma FourParts<T>(r: seq<T>, a: seq<T>, b: seq<T>, c: seq<T>, rest: seq<T>)
    ensures r + (a + b + c + rest) == r + a + b + c + rest
  {
  }

  method EncodeAt(s: bytes, b: Base64Modifiers, offset: nat) returns (r: seq<bytes>)
    ensures r == EncodedAt(s, b, offset)
  {
    r := [];
    var encoded := B.EncodeBase64(s, b.alphabet, offset);
    if encoded.Some? {
      if b.wide || !b.ascii {
        var wide := WidenLiteral(encoded.value);
        r := r + [wide];
      }
      if b.ascii { r := r + [encoded.value]; }
    }
  }

  // ----- The literals of a regex -----

  /** `apply_ascii_wide_flags_on_literals` */
  method ApplyAsciiWide(literals: seq<bytes>, m: Modifiers) returns (r: seq<bytes>)
    ensures r == if !m.wide then literals else if m.ascii then literals + WideAll(literals) else WideAll(literals)
  {
    if !m.wide { return literals; }
    var wide: seq<bytes> := [];
    for j := 0 to |literals|
      invariant wide == WideAll(literals)[..j]
    {
      var w := WidenLiteral(literals[j]);
      wide := wide + [w];
    }
    r := if m.ascii then literals + wide else wide;
  }

  // ----- What the literals of a text are -----

  /** Each bit is flipped where the key has a one; twice gives the byte back. */
  lemma XorBits(a: byte, key: byte)
    ensures forall k: nat :: k < 8 ==> BitAt(XorByte(a, key), k) == if BitAt(key, k) == 1 then 1 - BitAt(a, k) else BitAt(a, k)
    ensures XorByte(XorByte(a, key), key) == a
  {
    PowersOfTwo();
    var x := XorByte(a, key);
    forall k: nat | k < 8
      ensures BitAt(x, k) == (if BitAt(key, k) == 1 then 1 - BitAt(a, k) else BitAt(a, k)) && BitAt(XorByte(x, key), k) == BitAt(a, k)
    {
      CombineBit(BitXor, a, key, 8, k);
      CombineBit(BitXor, x, key, 8, k);
    }
    SameBits(XorByte(x, key), a, 8);
  }

  /** A text under a key is read back under it. */
  lemma XorTwice(s: bytes, key: byte)
    ensures Xor(Xor(s, key), key) == s
  {
    hide XorByte;
    forall k | 0 <= k < |s| ensures Xor(Xor(s, key), key)[k] == s[k] { XorBits(s[k], key); }
  }

  lemma {:induction false} InKeys(s: bytes, first: int, last: byte, w: bytes)
    requires 0 <= first
    ensures w in Keys(s, first, last) <==> exists key: byte :: first <= key <= last && w == Xor(s, key)
    decreases last - first
  {
    hide Xor;
    if first <= last {
      InKeys(s, first + 1, last, w);
      if w == Xor(s, first) { assert w in Keys(s, first, last); }
    }
  }

  lemma {:induction false} InKeysOfAll(literals: seq<bytes>, first: byte, last: byte, w: bytes)
    ensures w in KeysOfAll(literals, first, last) <==>
              exists v, key: byte :: v in literals && first <= key <= last && w == Xor(v, key)
    decreases |literals|
  {
    hide Xor, Keys;
    if literals != [] {
      InKeys(literals[0], first, last, w);
      InKeysOfAll(literals[1..], first, last, w);
      assert forall v :: v in literals <==> v == literals[0] || v in literals[1..];
    }
  }

  /** With a range of keys, the literals are exactly the versions of the text under each key. */
  lemma XorLiteralsAre(value: bytes, m: Modifiers, w: bytes)
    requires m.xor.Some?
    ensures w in LiteralsOf(value, m) <==>
              exists v, key: byte :: v in Versions(value, m) && m.xor.value.0 <= key <= m.xor.value.1 && w == Xor(v, key)
  {
    InKeysOfAll(Versions(value, m), m.xor.value.0, m.xor.value.1, w);
  }

  /** The versions wanted: the text itself unless only its wide form is. */
  lemma VersionsAre(value: bytes, m: Modifiers)
    ensures forall v :: v in Versions(value, m) <==> (v == Wide(value) && m.wide) || (v == value && (m.ascii || !m.wide))
  {
  }

  /** `r` is the slice of the base64 of `p + v + x` made of the characters that lie wholly inside `v`, all of them and no
      other. */
  ghost predicate IsSlice(r: bytes, p: bytes, v: bytes, x: bytes, alphabet: B.Alphabet) {
    exists first: nat :: SliceAt(r, B.Encoded(p + v + x, alphabet), |p|, |v|, first)
  }

  ghost predicate SliceAt(r: bytes, whole: bytes, before: nat, length: nat, first: nat) {
    && first + |r| <= |whole| && whole[first..first + |r|] == r
    && forall i: nat :: B.WhollyInside(i, before, length) <==> first <= i < first + |r|
  }

  /** A slice in the form that the modifiers ask for. */
  predicate InForm(literal: bytes, r: bytes, b: Base64Modifiers) {
    (b.ascii && literal == r) || ((b.wide || !b.ascii) && literal == Wide(r))
  }

  lemma EncodedAtAre(v: bytes, b: Base64Modifiers, offset: nat, w: bytes)
    ensures w in EncodedAt(v, b, offset) <==>
              B.OwnChars(v, b.alphabet, offset).Some? && InForm(w, B.OwnChars(v, b.alphabet, offset).value, b)
  {
    hide B.OwnChars, Wide;
  }

  lemma InFour(a: seq<bytes>, b: seq<bytes>, c: seq<bytes>, d: seq<bytes>, w: bytes)
    ensures w in a + b + c + d <==> w in a || w in b || w in c || w in d
  {
  }

  lemma {:induction false} InEncodedAll(literals: seq<bytes>, b: Base64Modifiers, w: bytes)
    ensures w in EncodedAll(literals, b) <==> exists v, k: nat :: v in literals && k < 3 && w in EncodedAt(v, b, k)
    decreases |literals|
  {
    hide EncodedAt;
    if literals != [] {
      var v := literals[0];
      InEncodedAll(literals[1..], b, w);
      InFour(EncodedAt(v, b, 0), EncodedAt(v, b, 1), EncodedAt(v, b, 2), EncodedAll(literals[1..], b), w);
      assert forall u :: u in literals <==> u == v || u in literals[1..];
    }
  }

  lemma SameOffset(v: bytes, alphabet: B.Alphabet, offset: nat)
    ensures B.OwnChars(v, alphabet, offset) == B.OwnChars(v, alphabet, offset % 3)
  {
  }

  /** Nothing is missed: wherever a version of the text stands in what is encoded, if a character lies wholly inside it,
      the characters that do are a literal, in each form asked for. */
  lemma Base64Complete(value: bytes, m: Modifiers, v: bytes, p: bytes, x: bytes, i: nat) returns (r: bytes)
    requires m.xor.None? && m.base64.Some? && v in Versions(value, m) && B.WhollyInside(i, |p|, |v|)
    ensures IsSlice(r, p, v, x, m.base64.value.alphabet)
    ensures forall w :: InForm(w, r, m.base64.value) ==> w in LiteralsOf(value, m)
  {
    hide B.OwnChars, B.Encoded, Wide;
    var b := m.base64.value;
    var own := B.OwnChars(v, b.alphabet, |p|);
    if own.None? { B.NothingInside(|p|, v, b.alphabet); }
    r := own.value;
    B.ContextFree(p, v, x, b.alphabet, r);
    assert SliceAt(r, B.Encoded(p + v + x, b.alphabet), |p|, |v|, B.FirstChar(|p|));
    SameOffset(v, b.alphabet, |p|);
    hide InForm, SliceAt;
    forall w | InForm(w, r, b) ensures w in LiteralsOf(value, m) {
      EncodedAtAre(v, b, |p| % 3, w);
      InEncodedAll(Versions(value, m), b, w);
    }
  }

  /** And nothing is added: every literal is such a slice, in a form asked for, after any text of some length modulo 3. */
  lemma Base64Sound(value: bytes, m: Modifiers, literal: bytes) returns (v: bytes, k: nat, r: bytes)
    requires m.xor.None? && m.base64.Some? && literal in LiteralsOf(value, m)
    ensures v in Versions(value, m) && k < 3 && InForm(literal, r, m.base64.value)
    ensures forall p: bytes, x: bytes :: |p| % 3 == k ==> IsSlice(r, p, v, x, m.base64.value.alphabet)
  {
    hide B.OwnChars, B.Encoded, Wide;
    var b := m.base64.value;
    InEncodedAll(Versions(value, m), b, literal);
    v, k :| v in Versions(value, m) && k < 3 && literal in EncodedAt(v, b, k);
    EncodedAtAre(v, b, k, literal);
    r := B.OwnChars(v, b.alphabet, k).value;
    forall p: bytes, x: bytes | |p| % 3 == k ensures IsSlice(r, p, v, x, b.alphabet) {
      SameOffset(v, b.alphabet, |p|);
      SameOffset(v, b.alphabet, k);
      B.ContextFree(p, v, x, b.alphabet, r);
      assert SliceAt(r, B.Encoded(p + v + x, b.alphabet), |p|, |v|, B.FirstChar(|p|));
    }
  }

  // ----- What a match of a literal stands for -----

  /** The type of a match of the literal of this index, by its position alone. */
  function TypeAt(m: Modifiers, nbLiterals: nat, index: nat): MatchType {
    if !m.ascii && m.wide then WideStandard
    else if m.ascii && m.wide && index >= nbLiterals / 2 then WideAlternate
    else Ascii
  }

  function Lower(c: byte): byte {
    if 65 <= c <= 90 then c + 32 else c
  }

  predicate SameIgnoringCase(a: bytes, b: bytes) {
    |a| == |b| && forall k :: 0 <= k < |a| ==> Lower(a[k]) == Lower(b[k])
  }

  lemma SameIgnoringCaseIs(a: bytes, b: bytes)
    ensures SameIgnoringCase(a, b) <==> |a| == |b| && forall k :: 0 <= k < |a| ==> SameLetter(a[k], b[k])
  {
    forall x: byte, y: byte ensures Lower(x) == Lower(y) <==> SameLetter(x, y) {}
  }

  /** `confirm_ac_literal` */
  function ConfirmLiteral(literals: seq<bytes>, m: Modifiers, mem: bytes, start: nat, end: nat, index: nat): Option<MatchType>
    requires start <= end <= |mem| && index < |literals|
  {
    if m.nocase && !SameIgnoringCase(literals[index], mem[start..end]) then None
    else if !m.nocase && literals[index] != mem[start..end] then None
    else Some(TypeAt(m, |literals|, index))
  }

  lemma {:induction false} KeysCount(s: bytes, first: int, last: byte)
    requires 0 <= first <= last + 1
    ensures |Keys(s, first, last)| == last + 1 - first
    ensures forall i :: 0 <= i < |Keys(s, first, last)| ==> first + i <= last && Keys(s, first, last)[i] == Xor(s, first + i)
    decreases last - first
  {
    hide Xor;
    if first <= last { KeysCount(s, first + 1, last); }
  }

  lemma KeysOfVersions(value: bytes, m: Modifiers, first: byte, last: byte)
    ensures m.wide && m.ascii ==>
              KeysOfAll(Versions(value, m), first, last) == Keys(value, first, last) + Keys(Wide(value), first, last)
    ensures !(m.wide && m.ascii) ==>
              KeysOfAll(Versions(value, m), first, last) == Keys(if m.wide then Wide(value) else value, first, last)
  {
    var vs := Versions(value, m);
    if m.wide && m.ascii {
      var rest: seq<bytes> := vs[1..];
      assert rest == [Wide(value)] && rest[1..] == [];
      assert KeysOfAll(rest, first, last) == Keys(Wide(value), first, last) + [];
      assert Keys(Wide(value), first, last) + [] == Keys(Wide(value), first, last);
    } else {
      var rest: seq<bytes> := vs[1..];
      assert rest == [];
      assert Keys(vs[0], first, last) + [] == Keys(vs[0], first, last);
    }
  }

  /** The position of a literal tells whether it is the plain or the wide text, under one of the keys. */
  lemma TypeTells(value: bytes, m: Modifiers, index: nat)
    requires m.base64.None? && (m.xor.Some? ==> m.xor.value.0 <= m.xor.value.1)
    requires index < |LiteralsOf(value, m)|
    ensures var literals := LiteralsOf(value, m);
            var text := if TypeAt(m, |literals|, index).Ascii? then value else Wide(value);
            if m.xor.None? then literals[index] == text
            else exists key: byte :: m.xor.value.0 <= key <= m.xor.value.1 && literals[index] == Xor(text, key)
    ensures TypeAt(m, |LiteralsOf(value, m)|, index).WideStandard? <==> m.wide && !m.ascii
  {
    hide Xor, Keys, KeysOfAll, EncodedAll;
    if m.xor.Some? {
      var (first, last) := m.xor.value;
      KeysOfVersions(value, m, first, last);
      KeysCount(value, first, last);
      KeysCount(Wide(value), first, last);
      var n: nat := last + 1 - first;
      var i := if m.wide && m.ascii && index >= n then index - n else index;
      var key: byte := first + i;
      var text := if TypeAt(m, |LiteralsOf(value, m)|, index).Ascii? then value else Wide(value);
      assert LiteralsOf(value, m)[index] == Xor(text, key);
    }
  }

  /** Are these bytes the text, up to case if it does not count? */
  predicate Reads(m: Modifiers, text: bytes, found: bytes) {
    if m.nocase then SameIgnoringCase(text, found) else found == text
  }

  /** A literal found by the automaton is confirmed exactly when the bytes found read like it; then the type given is that
      of the text, plain or wide and under some key, that they read like. */
  lemma ConfirmTells(value: bytes, m: Modifiers, mem: bytes, start: nat, end: nat, index: nat)
    requires m.base64.None? && (m.xor.Some? ==> m.xor.value.0 <= m.xor.value.1)
    requires start <= end <= |mem| && index < |LiteralsOf(value, m)|
    ensures var t := ConfirmLiteral(LiteralsOf(value, m), m, mem, start, end, index);
            && (t.Some? <==> Reads(m, LiteralsOf(value, m)[index], mem[start..end]))
            && (t.Some? ==>
                  var text := if t.value.Ascii? then value else Wide(value);
                  if m.xor.None? then Reads(m, text, mem[start..end])
                  else exists key: byte :: m.xor.value.0 <= key <= m.xor.value.1 && Reads(m, Xor(text, key), mem[start..end]))
  {
    hide LiteralsOf, Xor, Wide;
    TypeTells(value, m, index);
  }

  /** Ignoring the case of wide texts is ignoring that of the texts. */
  lemma SameWide(a: bytes, b: bytes)
    ensures SameIgnoringCase(Wide(a), Wide(b)) <==> SameIgnoringCase(a, b)
  {
    if |a| == |b| {
      forall k | 0 <= k < |a|
        ensures Wide(a)[2 * k] == a[k] && Wide(b)[2 * k] == b[k] && Wide(a)[2 * k + 1] == Wide(b)[2 * k + 1] == 0
      {
        WideAt(a, k);
        WideAt(b, k);
      }
      if SameIgnoringCase(a, b) {
        forall j | 0 <= j < |Wide(a)| ensures Lower(Wide(a)[j]) == Lower(Wide(b)[j]) {
          assert j == 2 * (j / 2) || j == 2 * (j / 2) + 1;
        }
      }
      if SameIgnoringCase(Wide(a), Wide(b)) {
        forall k | 0 <= k < |a| ensures Lower(a[k]) == Lower(b[k]) { assert Wide(a)[2 * k] == a[k]; }
      }
    }
  }

  // ----- Full words -----

  predicate Alphanumeric(c: byte) {
    48 <= c <= 57 || 65 <= c <= 90 || 97 <= c <= 122
  }

  lemma AlphanumericAre(c: byte)
    ensures Alphanumeric(c) <==>
            || '0' <= c as char <= '9' || 'A' <= c as char <= 'Z' || 'a' <= c as char <= 'z'
  {
  }

  /** `check_fullword` */
  predicate IsFullword(mem: bytes, start: nat, end: nat, wide: bool)
    requires start <= end <= |mem|
  {
    if wide then
      && !(start > 1 && mem[start - 1] == 0 && Alphanumeric(mem[start - 2]))
      && !(end + 1 < |mem| && Alphanumeric(mem[end]) && mem[end + 1] == 0)
    else
      && !(start > 0 && Alphanumeric(mem[start - 1]))
      && !(end < |mem| && Alphanumeric(mem[end]))
  }

  /** A letter or a figure next to what is found makes it a part of a word. */
  lemma FullwordIs(before: bytes, found: bytes, after: bytes)
    ensures IsFullword(before + found + after, |before|, |before| + |found|, false)
       <==> && (before == [] || !Alphanumeric(before[|before| - 1]))
            && (after == [] || !Alphanumeric(after[0]))
  {
    hide Alphanumeric;
    var mem := before + found + after;
    if before != [] { assert mem[|before| - 1] == before[|before| - 1]; }
    if after != [] { assert mem[|before| + |found|] == after[0]; }
  }

  /** A match in a wide text is a full word exactly when it is one in the text. */
  lemma FullwordOfWide(text: bytes, i: nat, j: nat)
    requires i <= j <= |text|
    ensures IsFullword(Wide(text), 2 * i, 2 * j, true) == IsFullword(text, i, j, false)
  {
    hide Wide, Alphanumeric;
    if i > 0 {
      WideAt(text, i - 1);
      assert 2 * (i - 1) == 2 * i - 2;
    }
    if j < |text| { WideAt(text, j); }
  }
}
