/** Ranking of atoms (`atoms.rs`), and the choice of the best part of a run (`run_into_atoms` and its helpers in
    `matcher/literals.rs`). */
module Atoms {
  import opened Base
  import opened Bitmaps
  import opened Words

  // ----- Ranks -----

  predicate CommonByte(b: byte) {
    b == 0x00 || b == 0x20 || b == 0xCC || b == 0xFF
  }

  function ByteRank(b: byte): nat {
    if CommonByte(b) then 12 else if 97 <= b <= 122 then 18 else 20
  }

  /** Subtraction on a `u32`. It panics or wraps on underflow, depending on the build; the model wraps. */
  function WrappingSub(a: nat, b: nat): nat {
    (a - b) % 0x1_0000_0000
  }

  /** The sum of the ranks of the bytes, and how many different ones there are. */
  function SumRank(atom: bytes): nat {
    if atom == [] then 0 else SumRank(atom[..|atom| - 1]) + ByteRank(atom[|atom| - 1])
  }

  function ByteSet(atom: bytes): set<byte> {
    set b | b in atom
  }

  predicate HasCommon(seen: set<byte>) {
    0x00 in seen || 0x20 in seen || 0xCC in seen || 0xFF in seen
  }

  function AtomRank(atom: bytes): nat {
    if |ByteSet(atom)| == 1 && HasCommon(ByteSet(atom)) then WrappingSub(SumRank(atom), 10 * |atom|)
    else SumRank(atom) + 2 * |ByteSet(atom)|
  }

  lemma {:induction false} SumRankBound(atom: bytes)
    ensures 12 * |atom| <= SumRank(atom) <= 20 * |atom|
  {
    if atom != [] { SumRankBound(atom[..|atom| - 1]); }
  }

  /** The penalty of an atom never underflows. */
  lemma AtomRankNoUnderflow(atom: bytes)
    ensures SumRank(atom) >= 10 * |atom|
  {
    SumRankBound(atom);
  }

  lemma OneMoreByte(atom: bytes, k: nat)
    requires k < |atom|
    ensures SumRank(atom[..k + 1]) == SumRank(atom[..k]) + ByteRank(atom[k])
    ensures ByteSet(atom[..k + 1]) == ByteSet(atom[..k]) + {atom[k]}
  {
    assert atom[..k + 1] == atom[..k] + [atom[k]];
    assert atom[..k + 1][..k] == atom[..k];
  }

  /** `atom_rank`, with its table of the bytes met. */
  method ComputeAtomRank(atom: bytes) returns (quality: nat)
    ensures quality == AtomRank(atom)
  {
    quality := 0;
    var bitmask := new bool[256](_ => false);
    var nbUniq := 0;
    for k := 0 to |atom|
      invariant quality == SumRank(atom[..k])
      invariant nbUniq == |ByteSet(atom[..k])|
      invariant forall b: byte :: bitmask[b] <==> b in ByteSet(atom[..k])
    {
      var b := atom[k];
      OneMoreByte(atom, k);
      quality := quality + ByteRank(b);
      if !bitmask[b] {
        bitmask[b] := true;
        nbUniq := nbUniq + 1;
      }
    }
    assert atom[..|atom|] == atom;
    if nbUniq == 1 && (bitmask[0] || bitmask[0x20] || bitmask[0xCC] || bitmask[0xFF]) {
      quality := WrappingSub(quality, 10 * |atom|);
    } else {
      quality := quality + 2 * nbUniq;
    }
  }

  const ATOM_SIZE: nat := 4

  /** The best rank of the windows of a literal that start at `k` or after. */
  function BestWindow(lit: bytes, k: nat): nat
    requires k + ATOM_SIZE <= |lit|
    decreases |lit| - k
  {
    var r := AtomRank(lit[k..k + ATOM_SIZE]);
    if k + ATOM_SIZE == |lit| then r
    else if r > BestWindow(lit, k + 1) then r else BestWindow(lit, k + 1)
  }

  function LiteralRank(lit: bytes): nat {
    if |lit| > ATOM_SIZE then BestWindow(lit, 0) else AtomRank(lit)
  }

  /** `atoms_rank`: the rank of the worst literal. */
  function AtomsRank(literals: seq<bytes>): nat {
    if literals == [] then 0
    else if |literals| == 1 then LiteralRank(literals[0])
    else if LiteralRank(literals[0]) < AtomsRank(literals[1..]) then LiteralRank(literals[0])
    else AtomsRank(literals[1..])
  }

  function FourAt(lit: bytes, i: nat): bytes
    requires i + ATOM_SIZE <= |lit|
  {
    lit[i..i + ATOM_SIZE]
  }

  /** The rank of a literal is that of its best four bytes, or its own when it has no more. */
  lemma {:induction false} BestWindowIsMax(lit: bytes, k: nat) returns (best: nat)
    requires k + ATOM_SIZE <= |lit|
    ensures k <= best <= |lit| - ATOM_SIZE && AtomRank(FourAt(lit, best)) == BestWindow(lit, k)
    ensures forall i :: k <= i <= |lit| - ATOM_SIZE ==> AtomRank(FourAt(lit, i)) <= BestWindow(lit, k)
    decreases |lit| - k
  {
    hide AtomRank;
    best := k;
    if k + ATOM_SIZE < |lit| {
      var later := BestWindowIsMax(lit, k + 1);
      if AtomRank(FourAt(lit, k)) <= BestWindow(lit, k + 1) { best := later; }
    }
  }

  /** The rank of some literals is that of the worst of them. */
  lemma {:induction false} AtomsRankIsMin(literals: seq<bytes>) returns (worst: nat)
    requires literals != []
    ensures worst < |literals| && AtomsRank(literals) == LiteralRank(literals[worst])
    ensures forall k :: 0 <= k < |literals| ==> AtomsRank(literals) <= LiteralRank(literals[k])
    decreases |literals|
  {
    hide LiteralRank;
    worst := 0;
    if |literals| > 1 {
      var later := AtomsRankIsMin(literals[1..]);
      if AtomsRank(literals[1..]) <= LiteralRank(literals[0]) { worst := later + 1; }
    }
  }

  /** Ranks of some atoms: rare bytes, lower-case letters, and frequent bytes, different and repeated. */
  lemma KnownRanks()
    ensures AtomRank([0x01, 0x02, 0x03, 0x04]) == 88
    ensures AtomRank([119, 120, 121, 122]) == 80 && AtomRank([65, 97]) == 42 && AtomRank([122, 90]) == 42
    ensures AtomRank([97, 97, 97, 97]) == 74
    ensures AtomRank([0x00, 0x20, 0xCC, 0xFF]) == 56
    ensures AtomRank([0, 0]) == AtomRank([0x20, 0x20]) == AtomRank([0xCC, 0xCC]) == AtomRank([0xFF, 0xFF]) == 4
  {
    RankOfFour(0x01, 0x02, 0x03, 0x04);
    RankOfFour(119, 120, 121, 122);
    RankOfFour(97, 97, 97, 97);
    RankOfFour(0x00, 0x20, 0xCC, 0xFF);
    RankOfTwo(65, 97);
    RankOfTwo(122, 90);
    RankOfTwo(0, 0);
    RankOfTwo(0x20, 0x20);
    RankOfTwo(0xCC, 0xCC);
    RankOfTwo(0xFF, 0xFF);
  }

  /** The rank of every atom of one byte. */
  lemma RankOfOne(b: byte)
    ensures AtomRank([b])
         == if b in {0x00, 0x20, 0xCC, 0xFF} then 2 else if 'a' as int <= b <= 'z' as int then 20 else 22
  {
    SumOfOneMore([], b);
    assert [] + [b] == [b];
    assert ByteSet([b]) == {b};
  }

  lemma NothingSummed()
    ensures SumRank([]) == 0 && ByteSet([]) == {}
  {
  }

  lemma SumOfOneMore(atom: bytes, b: byte)
    ensures SumRank(atom + [b]) == SumRank(atom) + ByteRank(b)
  {
    assert (atom + [b])[..|atom|] == atom;
  }

  lemma RankOfTwo(a: byte, b: byte)
    ensures a != b ==> AtomRank([a, b]) == ByteRank(a) + ByteRank(b) + 4
    ensures a == b && CommonByte(a) ==> AtomRank([a, b]) == 2 * ByteRank(a) - 20
  {
    SumOfOneMore([], a);
    SumOfOneMore([a], b);
    assert [] + [a] == [a] && [a] + [b] == [a, b];
    assert ByteSet([a, b]) == {a, b};
  }

  lemma RankOfFour(a: byte, b: byte, c: byte, d: byte)
    ensures a < b < c < d ==> AtomRank([a, b, c, d]) == ByteRank(a) + ByteRank(b) + ByteRank(c) + ByteRank(d) + 8
    ensures a == b == c == d && !CommonByte(a) ==> AtomRank([a, b, c, d]) == 4 * ByteRank(a) + 2
  {
    hide SumRank, ByteRank, ByteSet;
    var one, two, three, four: bytes := [a], [a, b], [a, b, c], [a, b, c, d];
    NothingSummed();
    SumOfOneMore([], a);
    SumOfOneMore(one, b);
    SumOfOneMore(two, c);
    SumOfOneMore(three, d);
    assert [] + [a] == one && one + [b] == two && two + [c] == three && three + [d] == four;
    SetOfFour(a, b, c, d);
  }

  lemma SetOfFour(a: byte, b: byte, c: byte, d: byte)
    ensures ByteSet([a, b, c, d]) == {a, b, c, d}
    ensures a < b < c < d ==> |{a, b, c, d}| == 4
    ensures a == b == c == d ==> {a, b, c, d} == {a} && |{a}| == 1
  {
    if a < b < c < d {
      assert {a, b} == {a} + {b} && {a, b, c} == {a, b} + {c} && {a, b, c, d} == {a, b, c} + {d};
      assert |{a, b}| == 2 && |{a, b, c}| == 3;
    }
  }

  // ----- Parts of a run -----

  datatype PartKind = Byte(b: byte) | Set(bitmap: set<byte>)

  datatype Part = Part(start: nat, kind: PartKind)

  function Combinations(p: Part): nat {
    match p.kind
    case Byte(_) => 1
    case Set(bitmap) => |bitmap|
  }

  function CombinationsOf(parts: seq<Part>): nat {
    if parts == [] then 1 else Combinations(parts[0]) * CombinationsOf(parts[1..])
  }

  /** The bytes that a part stands for, in ascending order. */
  function PartBytes(p: Part): seq<byte> {
    match p.kind
    case Byte(b) => [b]
    case Set(bitmap) => Members(bitmap)
  }

  /** The literals of a list of parts. */
  function WordsOfParts(parts: seq<Part>): seq<bytes> {
    if parts == [] then [[]] else Product(Singles(PartBytes(parts[0])), WordsOfParts(parts[1..]))
  }

  lemma {:induction false} WordsOfPartsCounted(parts: seq<Part>)
    ensures |WordsOfParts(parts)| == CombinationsOf(parts)
  {
    if parts != [] {
      WordsOfPartsCounted(parts[1..]);
      ProductLength(Singles(PartBytes(parts[0])), WordsOfParts(parts[1..]));
      if parts[0].kind.Set? { MembersSpec(parts[0].kind.bitmap); }
    }
  }

  lemma {:induction false} WordsOfPartsAppend(xs: seq<Part>, ys: seq<Part>)
    ensures WordsOfParts(xs + ys) == Product(WordsOfParts(xs), WordsOfParts(ys))
  {
    if xs == [] {
      assert xs + ys == ys;
      ProductUnits(WordsOfParts(ys));
    } else {
      assert (xs + ys)[0] == xs[0] && (xs + ys)[1..] == xs[1..] + ys;
      WordsOfPartsAppend(xs[1..], ys);
      ProductAssociative(Singles(PartBytes(xs[0])), WordsOfParts(xs[1..]), WordsOfParts(ys));
    }
  }

  /** The first byte of `w` is picked in the first part, the second one in the second part, and so on. */
  predicate PicksOneOfEach(parts: seq<Part>, w: bytes) {
    if parts == [] then w == []
    else w != [] && w[0] in PartBytes(parts[0]) && PicksOneOfEach(parts[1..], w[1..])
  }

  /** A literal of a run picks one byte of each part. */
  lemma {:induction false} WordsOfPartsMember(parts: seq<Part>, w: bytes)
    ensures w in WordsOfParts(parts) <==> PicksOneOfEach(parts, w)
  {
    hide Product, PartBytes;
    if parts != [] {
      var first, rest := Singles(PartBytes(parts[0])), WordsOfParts(parts[1..]);
      ProductMember(first, rest, w);
      if w in Product(first, rest) {
        var x, y :| x in first && y in rest && w == x + y;
        assert x == [w[0]] && y == w[1..];
        WordsOfPartsMember(parts[1..], y);
      }
      if PicksOneOfEach(parts, w) {
        WordsOfPartsMember(parts[1..], w[1..]);
        var n :| 0 <= n < |PartBytes(parts[0])| && PartBytes(parts[0])[n] == w[0];
        assert first[n] == [w[0]] && w == [w[0]] + w[1..];
      }
    }
  }

  lemma {:induction false} PicksLength(parts: seq<Part>, w: bytes)
    requires PicksOneOfEach(parts, w)
    ensures |w| == |parts|
  {
    if parts != [] { PicksLength(parts[1..], w[1..]); }
  }

  lemma OneMorePart(parts: seq<Part>, k: nat)
    requires k < |parts|
    ensures WordsOfParts(parts[..k + 1])
         == match parts[k].kind
            case Byte(b) => Suffixed(WordsOfParts(parts[..k]), [b])
            case Set(bitmap) => Product(WordsOfParts(parts[..k]), Singles(Members(bitmap)))
  {
    assert parts[..k + 1] == parts[..k] + [parts[k]];
    WordsOfPartsAppend(parts[..k], [parts[k]]);
    WordsOfPartsOne(parts[k]);
    match parts[k].kind
    case Byte(b) =>
      ProductSuffixed(WordsOfParts(parts[..k]), [b]);
      assert Singles([b]) == [[b]];
    case Set(_) =>
  }

  /** `generate_literals`: the list of the literals grows from left to right. */
  method GenerateLiterals(parts: seq<Part>) returns (literals: seq<bytes>)
    ensures literals == WordsOfParts(parts)
  {
    literals := [[]];
    for k := 0 to |parts|
      invariant literals == WordsOfParts(parts[..k])
    {
      OneMorePart(parts, k);
      match parts[k].kind {
        case Byte(b) =>
          literals := Suffixed(literals, [b]);
        case Set(bitmap) =>
          literals := Product(literals, Singles(Members(bitmap)));
      }
    }
    assert parts[..|parts|] == parts;
  }

  lemma WordsOfPartsOne(p: Part)
    ensures WordsOfParts([p]) == Singles(PartBytes(p))
  {
    assert [p][1..] == [];
    ProductUnits(Singles(PartBytes(p)));
  }

  // ----- The rank of a window of parts -----

  datatype Score = Score(quality: nat, seen: set<byte>, nbUniq: nat)

  function MinRank(bs: seq<byte>): nat {
    if bs == [] then 0
    else if |bs| == 1 || ByteRank(bs[0]) < MinRank(bs[1..]) then ByteRank(bs[0])
    else MinRank(bs[1..])
  }

  /** One more part: its quality is that of its worst byte, and it counts as new if it brings a new byte. */
  function AddPart(s: Score, p: Part): Score {
    match p.kind
    case Byte(b) => Score(s.quality + ByteRank(b), s.seen + {b}, if b in s.seen then s.nbUniq else s.nbUniq + 1)
    case Set(bitmap) =>
      Score(s.quality + MinRank(Members(bitmap)), s.seen + bitmap, if bitmap <= s.seen then s.nbUniq else s.nbUniq + 1)
  }

  function ScoreOf(parts: seq<Part>): Score {
    if parts == [] then Score(0, {}, 0) else AddPart(ScoreOf(parts[..|parts| - 1]), parts[|parts| - 1])
  }

  /** A window is admissible if both its ends have few combinations, and it has at most 256 in all. */
  predicate Admissible(parts: seq<Part>) {
    && parts != []
    && Combinations(parts[0]) < 100
    && Combinations(parts[|parts| - 1]) < 100
    && CombinationsOf(parts) <= 256
  }

  function SaturatingSub(a: nat, b: nat): nat {
    if a < b then 0 else a - b
  }

  function Penalised(s: Score, len: nat): nat {
    if s.nbUniq == 1 && HasCommon(s.seen) then WrappingSub(s.quality, 10 * len) else s.quality + 2 * s.nbUniq
  }

  function PartsRank(parts: seq<Part>): Option<nat> {
    if !Admissible(parts) then None
    else
      Some(Thinned(Penalised(ScoreOf(parts), |parts|), CombinationsOf(parts), |parts|))
  }

  /** Many combinations make a window less attractive. */
  function Thinned(quality: nat, combinations: nat, len: nat): nat {
    if combinations >= 100 then SaturatingSub(quality, 10 * len)
    else if combinations > 1 then SaturatingSub(quality, 4 * len)
    else quality
  }

  /** The loop of `get_parts_rank` over the parts. */
  method ComputeScore(parts: seq<Part>) returns (s: Score)
    ensures s == ScoreOf(parts)
  {
    var quality: nat, seen: set<byte>, nbUniq: nat := 0, {}, 0;
    for k := 0 to |parts|
      invariant Score(quality, seen, nbUniq) == ScoreOf(parts[..k])
    {
      assert parts[..k + 1][..k] == parts[..k];
      assert ScoreOf(parts[..k + 1]) == AddPart(ScoreOf(parts[..k]), parts[k]);
      match parts[k].kind {
        case Byte(b) =>
          quality := quality + ByteRank(b);
          if b !in seen {
            seen := seen + {b};
            nbUniq := nbUniq + 1;
          } else {
            assert seen + {b} == seen;
          }
        case Set(bitmap) =>
          quality := quality + MinRank(Members(bitmap));
          if exists b :: b in bitmap && b !in seen {
            nbUniq := nbUniq + 1;
          }
          seen := seen + bitmap;
      }
    }
    assert parts[..|parts|] == parts;
    return Score(quality, seen, nbUniq);
  }

  /** `get_parts_rank` */
  method GetPartsRank(parts: seq<Part>) returns (r: Option<nat>)
    ensures r == PartsRank(parts)
  {
    if parts == [] || Combinations(parts[0]) >= 100 || Combinations(parts[|parts| - 1]) >= 100 {
      return None;
    }
    var combinations := CombinationsOf(parts);
    if combinations > 256 {
      return None;
    }
    var s := ComputeScore(parts);
    var quality := s.quality;
    var len := |parts|;
    if s.nbUniq == 1 && (0 in s.seen || 0x20 in s.seen || 0xCC in s.seen || 0xFF in s.seen) {
      quality := WrappingSub(quality, 10 * len);
    } else {
      quality := quality + 2 * s.nbUniq;
    }
    assert quality == Penalised(s, len);
    return Some(Thinned(quality, combinations, len));
  }

  // ----- Both rankings agree -----

  function BytesOfParts(parts: seq<Part>): (w: bytes)
    requires forall k :: 0 <= k < |parts| ==> parts[k].kind.Byte?
    ensures |w| == |parts|
  {
    seq<byte>(|parts|, k requires 0 <= k < |parts| => parts[k].kind.b)
  }

  lemma {:induction false} ScoreOfBytes(parts: seq<Part>)
    requires forall k :: 0 <= k < |parts| ==> parts[k].kind.Byte?
    ensures var w := BytesOfParts(parts);
            ScoreOf(parts) == Score(SumRank(w), ByteSet(w), |ByteSet(w)|)
  {
    hide ByteRank, SumRank, MinRank, ByteSet;
    var w := BytesOfParts(parts);
    NothingSummed();
    if parts == [] {
      assert w == [];
    } else {
      var n := |parts| - 1;
      ScoreOfBytes(parts[..n]);
      assert BytesOfParts(parts[..n]) == w[..n];
      OneMoreByte(w, n);
      OneMoreIn(ByteSet(w[..n]), w[n]);
      assert w[..n + 1] == w;
      assert ScoreOf(parts) == AddPart(ScoreOf(parts[..n]), parts[n]);
    }
  }

  lemma OneMoreIn(s: set<byte>, b: byte)
    ensures |s + {b}| == if b in s then |s| else |s| + 1
    ensures b in s ==> s + {b} == s
  {
  }

  /** The rank of a window without classes is the rank of its bytes as an atom. */
  lemma WindowIsAtom(parts: seq<Part>)
    requires parts != [] && forall k :: 0 <= k < |parts| ==> parts[k].kind.Byte?
    ensures PartsRank(parts) == Some(AtomRank(BytesOfParts(parts)))
  {
    hide ScoreOf;
    ScoreOfBytes(parts);
    CombinationsOfBytes(parts);
  }

  /** A class counts for the worst of its bytes. */
  lemma {:induction false} MinRankIsMin(bs: seq<byte>) returns (worst: nat)
    requires bs != []
    ensures worst < |bs| && MinRank(bs) == ByteRank(bs[worst])
    ensures forall k :: 0 <= k < |bs| ==> MinRank(bs) <= ByteRank(bs[k])
  {
    hide ByteRank;
    worst := 0;
    if |bs| > 1 {
      var later := MinRankIsMin(bs[1..]);
      if MinRank(bs[1..]) <= ByteRank(bs[0]) { worst := later + 1; }
    }
  }

  /** A byte that is neither very common nor a lower-case letter. */
  predicate RareByte(b: byte) {
    b !in {0x00, 0x20, 0xCC, 0xFF} && !('a' as int <= b <= 'z' as int)
  }

  predicate RareClass(s: set<byte>) {
    s != {} && forall b :: b in s ==> RareByte(b)
  }

  lemma RareRank(s: set<byte>)
    requires RareClass(s)
    ensures MinRank(Members(s)) == 20 && !HasCommon(s)
  {
    hide MinRank;
    var bs := Members(s);
    MembersSpec(s);
    var worst := MinRankIsMin(bs);
    assert bs[worst] in s;
  }

  /** The ranks of windows of one or two classes of rare bytes: more combinations make them worse, and too many impossible. */
  lemma RanksOfClasses(s: set<byte>, t: set<byte>, i: nat, j: nat)
    requires RareClass(s) && RareClass(t) && !(t <= s)
    ensures PartsRank([Part(i, Set(s))]) == if |s| >= 100 then None else Some(if |s| > 1 then 18 else 22)
    ensures PartsRank([Part(i, Set(s)), Part(j, Set(t))])
         == if |s| >= 100 || |t| >= 100 || |s| * |t| > 256 then None
            else Some(if |s| * |t| >= 100 then 24 else if |s| * |t| > 1 then 36 else 44)
  {
    hide MinRank, HasCommon;
    var a, b := Part(i, Set(s)), Part(j, Set(t));
    RareRank(s);
    RareRank(t);
    RareRank(s + t);
    ScoreOfOne(a);
    ScoreOfTwo(a, b);
    CombinationsOfTwo(a, b);
  }

  lemma ScoreOfOne(a: Part)
    ensures ScoreOf([a]) == AddPart(Score(0, {}, 0), a)
  {
    assert [a][..0] == [];
  }

  lemma ScoreOfTwo(a: Part, b: Part)
    ensures ScoreOf([a, b]) == AddPart(AddPart(Score(0, {}, 0), a), b)
  {
    hide AddPart;
    assert [a, b][..1] == [a];
    ScoreOfOne(a);
  }

  lemma CombinationsOfTwo(a: Part, b: Part)
    ensures CombinationsOf([a]) == Combinations(a) && CombinationsOf([a, b]) == Combinations(a) * Combinations(b)
  {
    hide Combinations;
    assert [a][1..] == [] && [a, b][1..] == [b] && [b][1..] == [];
  }

  predicate NoEmptyPart(parts: seq<Part>) {
    forall k :: 0 <= k < |parts| ==> PartBytes(parts[k]) != []
  }

  lemma {:induction false} MinRankBound(bs: seq<byte>)
    requires bs != []
    ensures 12 <= MinRank(bs) <= 20
  {
    if |bs| > 1 { MinRankBound(bs[1..]); }
  }

  /** The penalty of a window never underflows, unless one of its classes is empty. */
  lemma {:induction false} PartsRankNoUnderflow(parts: seq<Part>)
    requires NoEmptyPart(parts)
    ensures 12 * |parts| <= ScoreOf(parts).quality
    ensures ScoreOf(parts).quality >= 10 * |parts|
  {
    if parts != [] {
      var last := parts[|parts| - 1];
      PartsRankNoUnderflow(parts[..|parts| - 1]);
      MinRankBound(PartBytes(last));
      if last.kind.Byte? { assert MinRank(PartBytes(last)) == ByteRank(last.kind.b); }
    }
  }

  /** Is the penalty of the window more than its quality? */
  predicate Underflows(parts: seq<Part>) {
    var s := ScoreOf(parts);
    s.nbUniq == 1 && HasCommon(s.seen) && s.quality < 10 * |parts|
  }

  /** An empty class, then a nul byte. */
  lemma UnderflowWitness(a: Part, b: Part)
    requires a.kind == Set({}) && b.kind == Byte(0)
    ensures Admissible([a, b]) && Underflows([a, b])
    ensures PartsRank([a, b]) == Some(WrappingSub(12, 20))
  {
    var parts := [a, b];
    MembersSpec({});
    assert parts[..1] == [a] && parts[1..] == [b] && [a][..0] == [];
    assert ScoreOf([a]) == AddPart(Score(0, {}, 0), a);
    assert ScoreOf(parts) == AddPart(ScoreOf([a]), b);
    assert Combinations(a) == 0 && CombinationsOf(parts) == 0 * CombinationsOf([b]);
  }

  /** A part makes some window underflow, whose other parts are not empty, exactly when it is an empty class. */
  lemma UnderflowIff(p: Part)
    ensures PartBytes(p) == []
       <==> exists rest :: NoEmptyPart(rest) && Admissible([p] + rest) && Underflows([p] + rest)
  {
    hide Admissible, ScoreOf;
    if PartBytes(p) == [] {
      var nul := Part(p.start + 1, Byte(0));
      EmptyPart(p);
      UnderflowWitness(p, nul);
      assert [p] + [nul] == [p, nul];
      assert NoEmptyPart([nul]);
    } else {
      forall rest | NoEmptyPart(rest) ensures !Underflows([p] + rest) { PartsRankNoUnderflow([p] + rest); }
    }
  }

  lemma EmptyPart(p: Part)
    requires PartBytes(p) == []
    ensures p.kind == Set({})
  {
    MembersSpec(p.kind.bitmap);
  }

  // ----- The best window of a run, and the atoms it gives -----

  datatype Atoms = Atoms(start: nat, end: nat, literals: seq<bytes>, rank: nat)

  /** A window `parts[i..j]` and its rank. */
  datatype Window = Window(i: nat, j: nat, rank: nat)

  predicate IsWindow(parts: seq<Part>, i: nat, j: nat) {
    i < j <= |parts| && j <= i + 4
  }

  /** Keep the window `parts[i..j]` if it is admissible and better than the best one so far. */
  function Consider(rank: seq<Part> -> Option<nat>, parts: seq<Part>, i: nat, j: nat, best: Option<Window>): Option<Window>
    requires IsWindow(parts, i, j)
  {
    var r := rank(parts[i..j]);
    if r.Some? && (best.None? || r.value > best.value.rank) then Some(Window(i, j, r.value)) else best
  }

  /** The two nested loops, from the window `i..j` on. */
  function Search(rank: seq<Part> -> Option<nat>, parts: seq<Part>, i: nat, j: nat, best: Option<Window>): Option<Window>
    requires i < j
    decreases |parts| - i, i + 5 - j
  {
    if i >= |parts| then best
    else if !IsWindow(parts, i, j) then Search(rank, parts, i + 1, i + 2, best)
    else Search(rank, parts, i, j + 1, Consider(rank, parts, i, j, best))
  }

  /** The rank is that of the window. */
  predicate Ranked(rank: seq<Part> -> Option<nat>, parts: seq<Part>, w: Window) {
    IsWindow(parts, w.i, w.j) && rank(parts[w.i..w.j]) == Some(w.rank)
  }

  lemma {:induction false} SearchRanked(rank: seq<Part> -> Option<nat>, parts: seq<Part>, i: nat, j: nat, best: Option<Window>)
    requires i < j
    requires best.Some? ==> Ranked(rank, parts, best.value)
    ensures var r := Search(rank, parts, i, j, best);
      && (r.Some? ==> Ranked(rank, parts, r.value))
      && (best.Some? ==> r.Some? && best.value.rank <= r.value.rank)
    decreases |parts| - i, i + 5 - j
  {
    if i < |parts| {
      if IsWindow(parts, i, j) {
        SearchRanked(rank, parts, i, j + 1, Consider(rank, parts, i, j, best));
      } else {
        SearchRanked(rank, parts, i + 1, i + 2, best);
      }
    }
  }

  /** A better rank first; of equal ranks, the window that starts first, then the one that ends first. */
  predicate PrefersWindow(w: Window, v: Window) {
    w.rank > v.rank || (w.rank == v.rank && (w.i < v.i || (w.i == v.i && w.j <= v.j)))
  }

  /** The window found is preferred to any window `v` still to consider, and to any that the best so far is preferred to. */
  lemma {:induction false} SearchPrefers(rank: seq<Part> -> Option<nat>, parts: seq<Part>, i: nat, j: nat, best: Option<Window>,
                                         v: Window)
    requires i < j && Ranked(rank, parts, v)
    requires best.Some? ==> Ranked(rank, parts, best.value) && (best.value.i < i || (best.value.i == i && best.value.j < j))
    requires v.i > i || (v.i == i && v.j >= j) || (best.Some? && PrefersWindow(best.value, v))
    ensures var r := Search(rank, parts, i, j, best); r.Some? && Ranked(rank, parts, r.value) && PrefersWindow(r.value, v)
    decreases |parts| - i, i + 5 - j
  {
    if i < |parts| {
      if IsWindow(parts, i, j) {
        SearchPrefers(rank, parts, i, j + 1, Consider(rank, parts, i, j, best), v);
      } else {
        SearchPrefers(rank, parts, i + 1, i + 2, best, v);
      }
    }
  }

  /** Literals before the window are taken in. */
  function GrowLeft(parts: seq<Part>, start: nat): (r: nat)
    requires start <= |parts|
    ensures r <= start
    ensures forall k :: r <= k < start ==> parts[k].kind.Byte?
    ensures r == 0 || !parts[r - 1].kind.Byte?
  {
    if start > 0 && parts[start - 1].kind.Byte? then GrowLeft(parts, start - 1) else start
  }

  /** Literals after the window are taken in. */
  function GrowRight(parts: seq<Part>, end: nat): (r: nat)
    requires end <= |parts|
    ensures end <= r <= |parts|
    ensures forall k :: end <= k < r ==> parts[k].kind.Byte?
    ensures r == |parts| || !parts[r].kind.Byte?
    decreases |parts| - end
  {
    if end < |parts| && parts[end].kind.Byte? then GrowRight(parts, end + 1) else end
  }

  function AtomsOfWindow(parts: seq<Part>, w: Window): Atoms
    requires IsWindow(parts, w.i, w.j)
  {
    var start := GrowLeft(parts, w.i);
    var end := GrowRight(parts, w.j);
    Atoms(parts[start].start, parts[end - 1].start + 1, WordsOfParts(parts[start..end]), w.rank)
  }

  function RunIntoAtoms(parts: seq<Part>): Option<Atoms> {
    var best := Search(PartsRank, parts, 0, 1, None);
    SearchRanked(PartsRank, parts, 0, 1, None);
    if best.None? then None else Some(AtomsOfWindow(parts, best.value))
  }

  lemma {:induction false} CombinationsAppend(xs: seq<Part>, ys: seq<Part>)
    ensures CombinationsOf(xs + ys) == CombinationsOf(xs) * CombinationsOf(ys)
  {
    WordsOfPartsAppend(xs, ys);
    WordsOfPartsCounted(xs);
    WordsOfPartsCounted(ys);
    WordsOfPartsCounted(xs + ys);
    ProductLength(WordsOfParts(xs), WordsOfParts(ys));
  }

  lemma {:induction false} CombinationsOfBytes(parts: seq<Part>)
    requires forall k :: 0 <= k < |parts| ==> parts[k].kind.Byte?
    ensures CombinationsOf(parts) == 1
  {
    if parts != [] { CombinationsOfBytes(parts[1..]); }
  }

  /** Taking in literals around a window changes neither the number of combinations nor the bound on it. */
  lemma GrownCombinations(parts: seq<Part>, i: nat, j: nat)
    requires i <= j <= |parts|
    ensures CombinationsOf(parts[GrowLeft(parts, i)..GrowRight(parts, j)]) == CombinationsOf(parts[i..j])
  {
    var start, end := GrowLeft(parts, i), GrowRight(parts, j);
    assert parts[i..end] == parts[i..j] + parts[j..end];
    assert parts[start..end] == parts[start..i] + parts[i..end];
    CombinationsAround(parts[start..i], parts[i..j], parts[j..end]);
  }

  lemma CombinationsAround(left: seq<Part>, mid: seq<Part>, right: seq<Part>)
    requires forall k :: 0 <= k < |left| ==> left[k].kind.Byte?
    requires forall k :: 0 <= k < |right| ==> right[k].kind.Byte?
    ensures CombinationsOf(left + (mid + right)) == CombinationsOf(mid)
  {
    CombinationsAppend(left, mid + right);
    CombinationsAppend(mid, right);
    CombinationsOfBytes(left);
    CombinationsOfBytes(right);
  }

  /** The atoms of a run: none exactly when no window is admissible; otherwise they come from a window of at most four
      parts whose rank is the best of all, the first of those, and there are at most 256 of them, as many as the window alone gives. */
  lemma RunAtomsOptimal(parts: seq<Part>)
    ensures RunIntoAtoms(parts).None? <==>
              forall i, j {:trigger IsWindow(parts, i, j)} :: 0 <= i < j && IsWindow(parts, i, j) ==> !Admissible(parts[i..j])
    ensures RunIntoAtoms(parts).Some? ==>
      var atoms := RunIntoAtoms(parts).value;
      exists w: Window ::
        && Ranked(PartsRank, parts, w) && atoms == AtomsOfWindow(parts, w)
        && (forall v: Window :: Ranked(PartsRank, parts, v) ==> v.rank <= atoms.rank)
        && (forall v: Window :: Ranked(PartsRank, parts, v) ==> PrefersWindow(w, v))
        && |atoms.literals| == CombinationsOf(parts[w.i..w.j]) <= 256
  {
    SearchRanked(PartsRank, parts, 0, 1, None);
    var best := Search(PartsRank, parts, 0, 1, None);
    forall v: Window | Ranked(PartsRank, parts, v) ensures best.Some? && PrefersWindow(best.value, v) {
      SearchPrefers(PartsRank, parts, 0, 1, None, v);
    }
    if best.None? {
      forall i, j {:trigger IsWindow(parts, i, j)} | 0 <= i < j && IsWindow(parts, i, j) ensures !Admissible(parts[i..j]) {
        if Admissible(parts[i..j]) { assert Ranked(PartsRank, parts, Window(i, j, PartsRank(parts[i..j]).value)); }
      }
    } else {
      var w := best.value;
      GrownCombinations(parts, w.i, w.j);
      WordsOfPartsCounted(parts[GrowLeft(parts, w.i)..GrowRight(parts, w.j)]);
      assert Ranked(PartsRank, parts, w) && Admissible(parts[w.i..w.j]);
    }
  }

  /** The atoms come from a slice of the parts. */
  lemma RunAtomsSlice(parts: seq<Part>) returns (st: nat, en: nat)
    requires RunIntoAtoms(parts).Some?
    ensures st < en <= |parts|
    ensures var a := RunIntoAtoms(parts).value;
      a.start == parts[st].start && a.end == parts[en - 1].start + 1 && a.literals == WordsOfParts(parts[st..en])
  {
    hide Search, PartsRank, GrowLeft, GrowRight, WordsOfParts;
    SearchRanked(PartsRank, parts, 0, 1, None);
    var w := Search(PartsRank, parts, 0, 1, None).value;
    st, en := GrowLeft(parts, w.i), GrowRight(parts, w.j);
  }

  /** The first half of `run_into_atoms`: the rank of every window, keeping the first best one. */
  method FindBestWindow(parts: seq<Part>) returns (best: Option<Window>)
    ensures best == Search(PartsRank, parts, 0, 1, None)
    ensures best.Some? ==> Ranked(PartsRank, parts, best.value)
  {
    best := None;
    for i := 0 to |parts|
      invariant Search(PartsRank, parts, i, i + 1, best) == Search(PartsRank, parts, 0, 1, None)
    {
      var j: nat := i + 1;
      while j <= |parts| && j <= i + 4
        invariant i < j
        invariant Search(PartsRank, parts, i, j, best) == Search(PartsRank, parts, 0, 1, None)
        decreases |parts| - j
      {
        var rank := GetPartsRank(parts[i..j]);
        if rank.Some? && (best.None? || rank.value > best.value.rank) {
          best := Some(Window(i, j, rank.value));
        }
        j := j + 1;
      }
    }
    SearchRanked(PartsRank, parts, 0, 1, None);
  }

  /** The two loops that take in the literals around a window. */
  method Upscale(parts: seq<Part>, i: nat, j: nat) returns (start: nat, end: nat)
    requires i <= j <= |parts|
    ensures start == GrowLeft(parts, i) && end == GrowRight(parts, j)
  {
    start, end := i, j;
    while start > 0 && parts[start - 1].kind.Byte?
      invariant start <= i && GrowLeft(parts, start) == GrowLeft(parts, i)
    {
      start := start - 1;
    }
    while end < |parts| && parts[end].kind.Byte?
      invariant j <= end <= |parts| && GrowRight(parts, end) == GrowRight(parts, j)
    {
      end := end + 1;
    }
  }

  method AtomsAround(parts: seq<Part>, w: Window) returns (atoms: Atoms)
    requires IsWindow(parts, w.i, w.j)
    ensures atoms == AtomsOfWindow(parts, w)
  {
    var start, end := Upscale(parts, w.i, w.j);
    var literals := GenerateLiterals(parts[start..end]);
    atoms := Atoms(parts[start].start, parts[end - 1].start + 1, literals, w.rank);
  }

  /** `run_into_atoms` */
  method ComputeRunIntoAtoms(parts: seq<Part>) returns (r: Option<Atoms>)
    ensures r == RunIntoAtoms(parts)
  {
    var best := FindBestWindow(parts);
    if best.None? {
      return None;
    }
    var atoms := AtomsAround(parts, best.value);
    r := Some(atoms);
  }
}
