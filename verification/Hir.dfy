/** The regex HIR (`regex/hir.rs`) and the positional match relation its transformations are stated against. */
module Hir {
  import opened Base

  datatype AssertionKind = StartLine | EndLine | WordBoundary | NonWordBoundary

  datatype RepetitionKind =
    | ZeroOrOne
    | ZeroOrMore
    | OneOrMore
    | Exactly(n: nat)
    | AtLeast(n: nat)
    | Bounded(from: nat, to: nat)

  /** A class keeps only its bitmap here, as the set of the bytes it contains. */
  datatype Hir =
    | Alternation(alts: seq<Hir>)
    | Assertion(kind: AssertionKind)
    | Class(bitmap: set<byte>)
    | Mask(value: byte, mask: byte, negated: bool)
    | Concat(hirs: seq<Hir>)
    | Dot
    | Empty
    | Literal(b: byte)
    | Group(hir: Hir)
    | Repetition(inner: Hir, rep: RepetitionKind, greedy: bool)

  /** The shape the parsers build: a nibble mask agrees with its value, an alternation has branches, and it is never
      a direct child of a concatenation. A class may be empty: the complement of all bytes can be written. */
  predicate WellFormed(h: Hir) {
    match h
    case Mask(value, mask, _) => (mask == 0x0F && value < 16) || (mask == 0xF0 && value % 16 == 0)
    case Concat(hs) => forall k :: 0 <= k < |hs| ==> WellFormed(hs[k]) && !hs[k].Alternation?
    case Alternation(hs) => hs != [] && forall k :: 0 <= k < |hs| ==> WellFormed(hs[k])
    case Group(g) => WellFormed(g)
    case Repetition(g, _, _) => WellFormed(g)
    case _ => true
  }

  predicate AllWellFormed(hs: seq<Hir>) {
    forall k :: 0 <= k < |hs| ==> WellFormed(hs[k])
  }

  // ----- Which nodes a HIR holds -----

  /** The kinds of nodes that decide how a HIR is compiled. */
  datatype Kind =
    | AnyClass
    | AnyAlternation
    | AnyRepetition
    | GreedyRepetition
    | LineAssertion
    | BoundaryAssertion
    | Uncountable      // no finite number of literals covers it
    | NotLiteral       // not covered by a short list of literals
    | EmptyClass       // a class without bytes

  predicate Is(h: Hir, k: Kind) {
    match k
    case AnyClass => h.Class?
    case AnyAlternation => h.Alternation?
    case AnyRepetition => h.Repetition?
    case GreedyRepetition => h.Repetition? && h.greedy
    case LineAssertion => h.Assertion? && (h.kind.StartLine? || h.kind.EndLine?)
    case BoundaryAssertion => h.Assertion? && (h.kind.WordBoundary? || h.kind.NonWordBoundary?)
    case Uncountable => h.Assertion? || h.Repetition?
    case NotLiteral => h.Assertion? || h.Repetition? || h.Dot? || (h.Mask? && h.negated)
    case EmptyClass => h.Class? && h.bitmap == {}
  }

  /** Is some node of `h`, at any depth and itself included, of kind `k`? */
  predicate Has(h: Hir, k: Kind)
    decreases h, 1
  {
    Is(h, k) ||
    match h
    case Group(g) => Has(g, k)
    case Repetition(g, _, _) => Has(g, k)
    case Concat(hs) => HasAny(hs, k)
    case Alternation(hs) => HasAny(hs, k)
    case _ => false
  }

  predicate HasAny(hs: seq<Hir>, k: Kind)
    decreases hs, 0
  {
    hs != [] && (Has(hs[0], k) || HasAny(hs[1..], k))
  }

  lemma {:induction false} HasAnyAppend(xs: seq<Hir>, ys: seq<Hir>, k: Kind)
    ensures HasAny(xs + ys, k) == (HasAny(xs, k) || HasAny(ys, k))
    decreases |xs|
  {
    if xs == [] {
      assert xs + ys == ys;
    } else {
      assert (xs + ys)[0] == xs[0] && (xs + ys)[1..] == xs[1..] + ys;
      HasAnyAppend(xs[1..], ys, k);
    }
  }

  lemma HasAnyOne(h: Hir, k: Kind)
    ensures HasAny([h], k) == Has(h, k)
  {
    assert [h][1..] == [];
  }

  // ----- Matching one byte -----

  /** The bytes selected by a nibble mask, before negation. */
  predicate MaskSelects(value: byte, mask: byte, b: byte) {
    if mask == 0x0F then b % 16 == value else b - b % 16 == value
  }

  /** Does a node that consumes exactly one byte accept `b`? */
  predicate Accepts(h: Hir, dotAll: bool, b: byte) {
    match h
    case Literal(c) => b == c
    case Class(bitmap) => b in bitmap
    case Mask(value, mask, negated) => MaskSelects(value, mask, b) != negated
    case Dot => dotAll || b != 10
    case _ => false
  }

  predicate OneByte(h: Hir) {
    h.Literal? || h.Class? || h.Mask? || h.Dot?
  }

  // ----- The match relation -----

  predicate IsWordByte(b: byte) {
    48 <= b <= 57 || 65 <= b <= 90 || b == 95 || 97 <= b <= 122
  }

  /** Is the byte before (`i > 0`) or at a position a word byte? Outside of the memory, it is not. */
  predicate WordAt(mem: bytes, i: int) {
    0 <= i < |mem| && IsWordByte(mem[i])
  }

  predicate AssertionHolds(kind: AssertionKind, mem: bytes, i: nat) {
    match kind
    case StartLine => i == 0
    case EndLine => i == |mem|
    case WordBoundary => WordAt(mem, i - 1) != WordAt(mem, i)
    case NonWordBoundary => WordAt(mem, i - 1) == WordAt(mem, i)
  }

  predicate CountAllowed(kind: RepetitionKind, n: nat) {
    match kind
    case ZeroOrOne => n <= 1
    case ZeroOrMore => true
    case OneOrMore => 1 <= n
    case Exactly(m) => n == m
    case AtLeast(m) => m <= n
    case Bounded(a, b) => a <= n <= b
  }

  /** `h` matches `mem[i..j]`, in the context of the whole of `mem`. */
  ghost predicate Matches(h: Hir, dotAll: bool, mem: bytes, i: nat, j: nat)
    decreases h, 1, 0
  {
    i <= j <= |mem| &&
    match h
    case Alternation(alts) => exists k :: 0 <= k < |alts| && Matches(alts[k], dotAll, mem, i, j)
    case Assertion(kind) => i == j && AssertionHolds(kind, mem, i)
    case Concat(hs) => MatchesSeq(hs, dotAll, mem, i, j)
    case Empty => i == j
    case Group(g) => Matches(g, dotAll, mem, i, j)
    case Repetition(g, kind, _) => exists n: nat :: CountAllowed(kind, n) && MatchesTimes(g, n, dotAll, mem, i, j)
    case _ => j == i + 1 && Accepts(h, dotAll, mem[i])
  }

  /** The nodes of `hs` match one after the other, from `i` to `j`. */
  ghost predicate MatchesSeq(hs: seq<Hir>, dotAll: bool, mem: bytes, i: nat, j: nat)
    decreases hs, 0, 0
  {
    if hs == [] then i == j <= |mem|
    else exists k: nat :: Matches(hs[0], dotAll, mem, i, k) && MatchesSeq(hs[1..], dotAll, mem, k, j)
  }

  /** `h` matches `n` times in a row, from `i` to `j`. */
  ghost predicate MatchesTimes(h: Hir, n: nat, dotAll: bool, mem: bytes, i: nat, j: nat)
    decreases h, 2, n
  {
    if n == 0 then i == j <= |mem|
    else exists k: nat :: Matches(h, dotAll, mem, i, k) && MatchesTimes(h, n - 1, dotAll, mem, k, j)
  }

  // ----- Basic facts about sequences of nodes -----

  lemma {:induction false} MatchesSeqBounds(hs: seq<Hir>, dotAll: bool, mem: bytes, i: nat, j: nat)
    requires MatchesSeq(hs, dotAll, mem, i, j)
    ensures i <= j <= |mem|
    decreases |hs|
  {
    if hs != [] {
      var k: nat :| Matches(hs[0], dotAll, mem, i, k) && MatchesSeq(hs[1..], dotAll, mem, k, j);
      MatchesSeqBounds(hs[1..], dotAll, mem, k, j);
    }
  }

  lemma MatchesSeqOne(h: Hir, dotAll: bool, mem: bytes, i: nat, j: nat)
    ensures MatchesSeq([h], dotAll, mem, i, j) <==> Matches(h, dotAll, mem, i, j)
  {
    if Matches(h, dotAll, mem, i, j) {
      assert MatchesSeq([h][1..], dotAll, mem, j, j);
    }
  }

  lemma MatchesSeqFirst(hs: seq<Hir>, dotAll: bool, mem: bytes, i: nat, j: nat) returns (k: nat)
    requires hs != [] && MatchesSeq(hs, dotAll, mem, i, j)
    ensures Matches(hs[0], dotAll, mem, i, k) && MatchesSeq(hs[1..], dotAll, mem, k, j)
  {
    k :| Matches(hs[0], dotAll, mem, i, k) && MatchesSeq(hs[1..], dotAll, mem, k, j);
  }

  lemma MatchesTimesFirst(h: Hir, n: nat, dotAll: bool, mem: bytes, i: nat, j: nat) returns (k: nat)
    requires n > 0 && MatchesTimes(h, n, dotAll, mem, i, j)
    ensures Matches(h, dotAll, mem, i, k) && MatchesTimes(h, n - 1, dotAll, mem, k, j)
  {
    k :| Matches(h, dotAll, mem, i, k) && MatchesTimes(h, n - 1, dotAll, mem, k, j);
  }

  /** Splitting a match of a concatenation at a node boundary. */
  lemma {:induction false} MatchesSeqSplit(xs: seq<Hir>, ys: seq<Hir>, dotAll: bool, mem: bytes, i: nat, j: nat)
    returns (k: nat)
    requires MatchesSeq(xs + ys, dotAll, mem, i, j)
    ensures MatchesSeq(xs, dotAll, mem, i, k) && MatchesSeq(ys, dotAll, mem, k, j)
    decreases |xs|
  {
    if xs == [] {
      assert xs + ys == ys;
      MatchesSeqBounds(ys, dotAll, mem, i, j);
      k := i;
    } else {
      var hs := xs + ys;
      assert hs[0] == xs[0] && hs[1..] == xs[1..] + ys;
      var m: nat :| Matches(hs[0], dotAll, mem, i, m) && MatchesSeq(hs[1..], dotAll, mem, m, j);
      k := MatchesSeqSplit(xs[1..], ys, dotAll, mem, m, j);
    }
  }

  lemma {:induction false} MatchesSeqJoin(xs: seq<Hir>, ys: seq<Hir>, dotAll: bool, mem: bytes, i: nat, k: nat, j: nat)
    requires MatchesSeq(xs, dotAll, mem, i, k) && MatchesSeq(ys, dotAll, mem, k, j)
    ensures MatchesSeq(xs + ys, dotAll, mem, i, j)
    decreases |xs|
  {
    if xs == [] {
      assert xs + ys == ys;
    } else {
      var hs := xs + ys;
      assert hs[0] == xs[0] && hs[1..] == xs[1..] + ys;
      var m: nat :| Matches(xs[0], dotAll, mem, i, m) && MatchesSeq(xs[1..], dotAll, mem, m, k);
      MatchesSeqJoin(xs[1..], ys, dotAll, mem, m, k, j);
    }
  }

  // ----- Without assertions, a match depends on the matched bytes only -----

  predicate AssertionFree(h: Hir) { !Has(h, LineAssertion) && !Has(h, BoundaryAssertion) }

  predicate AssertionFreeAll(hs: seq<Hir>) { !HasAny(hs, LineAssertion) && !HasAny(hs, BoundaryAssertion) }

  lemma {:induction false} HasOf(hs: seq<Hir>, k: Kind, n: nat)
    requires n < |hs| && !HasAny(hs, k)
    ensures !Has(hs[n], k)
  {
    if n > 0 { HasOf(hs[1..], k, n - 1); }
  }

  ghost predicate SameBytes(m1: bytes, i1: nat, j1: nat, m2: bytes, i2: nat, j2: nat) {
    i1 <= j1 <= |m1| && i2 <= j2 <= |m2| && m1[i1..j1] == m2[i2..j2]
  }

  lemma SameBytesSplit(m1: bytes, i1: nat, k1: nat, j1: nat, m2: bytes, i2: nat, j2: nat) returns (k2: nat)
    requires SameBytes(m1, i1, j1, m2, i2, j2) && i1 <= k1 <= j1
    ensures SameBytes(m1, i1, k1, m2, i2, k2) && SameBytes(m1, k1, j1, m2, k2, j2)
  {
    k2 := i2 + (k1 - i1);
    assert |m1[i1..j1]| == |m2[i2..j2]|;
    assert m1[i1..k1] == m1[i1..j1][..k1 - i1] && m2[i2..k2] == m2[i2..j2][..k1 - i1];
    assert m1[k1..j1] == m1[i1..j1][k1 - i1..] && m2[k2..j2] == m2[i2..j2][k1 - i1..];
  }

  lemma {:induction false} MatchesLocal(h: Hir, dotAll: bool, m1: bytes, i1: nat, j1: nat, m2: bytes, i2: nat, j2: nat)
    requires AssertionFree(h) && SameBytes(m1, i1, j1, m2, i2, j2) && Matches(h, dotAll, m1, i1, j1)
    ensures Matches(h, dotAll, m2, i2, j2)
    decreases h, 1, 0
  {
    assert |m1[i1..j1]| == |m2[i2..j2]|;
    match h
    case Group(g) => MatchesLocal(g, dotAll, m1, i1, j1, m2, i2, j2);
    case Repetition(g, kind, _) =>
      var n: nat :| CountAllowed(kind, n) && MatchesTimes(g, n, dotAll, m1, i1, j1);
      MatchesTimesLocal(g, n, dotAll, m1, i1, j1, m2, i2, j2);
    case Concat(hs) => MatchesSeqLocal(hs, dotAll, m1, i1, j1, m2, i2, j2);
    case Alternation(hs) =>
      var k :| 0 <= k < |hs| && Matches(hs[k], dotAll, m1, i1, j1);
      HasOf(hs, LineAssertion, k);
      HasOf(hs, BoundaryAssertion, k);
      MatchesLocal(hs[k], dotAll, m1, i1, j1, m2, i2, j2);
    case Empty =>
    case Assertion(_) => assert false;
    case _ => assert m1[i1..j1][0] == m2[i2..j2][0];
  }

  lemma {:induction false} MatchesTimesLocal(g: Hir, n: nat, dotAll: bool, m1: bytes, i1: nat, j1: nat,
                                             m2: bytes, i2: nat, j2: nat)
    requires AssertionFree(g) && SameBytes(m1, i1, j1, m2, i2, j2) && MatchesTimes(g, n, dotAll, m1, i1, j1)
    ensures MatchesTimes(g, n, dotAll, m2, i2, j2)
    decreases g, 2, n
  {
    assert |m1[i1..j1]| == |m2[i2..j2]|;
    if n > 0 {
      var k1 := MatchesTimesFirst(g, n, dotAll, m1, i1, j1);
      MatchesTimesBounds(g, n - 1, dotAll, m1, k1, j1);
      var k2 := SameBytesSplit(m1, i1, k1, j1, m2, i2, j2);
      MatchesLocal(g, dotAll, m1, i1, k1, m2, i2, k2);
      MatchesTimesLocal(g, n - 1, dotAll, m1, k1, j1, m2, k2, j2);
    }
  }

  lemma {:induction false} MatchesTimesBounds(h: Hir, n: nat, dotAll: bool, mem: bytes, i: nat, j: nat)
    requires MatchesTimes(h, n, dotAll, mem, i, j)
    ensures i <= j <= |mem|
    decreases n
  {
    if n > 0 {
      var k := MatchesTimesFirst(h, n, dotAll, mem, i, j);
      MatchesTimesBounds(h, n - 1, dotAll, mem, k, j);
    }
  }

  lemma {:induction false} MatchesSeqLocal(hs: seq<Hir>, dotAll: bool, m1: bytes, i1: nat, j1: nat, m2: bytes, i2: nat, j2: nat)
    requires AssertionFreeAll(hs) && SameBytes(m1, i1, j1, m2, i2, j2) && MatchesSeq(hs, dotAll, m1, i1, j1)
    ensures MatchesSeq(hs, dotAll, m2, i2, j2)
    decreases hs, 0, 0
  {
    assert |m1[i1..j1]| == |m2[i2..j2]|;
    if hs != [] {
      var k1 := MatchesSeqFirst(hs, dotAll, m1, i1, j1);
      MatchesSeqBounds(hs[1..], dotAll, m1, k1, j1);
      var k2 := SameBytesSplit(m1, i1, k1, j1, m2, i2, j2);
      MatchesLocal(hs[0], dotAll, m1, i1, k1, m2, i2, k2);
      MatchesSeqLocal(hs[1..], dotAll, m1, k1, j1, m2, k2, j2);
    }
  }

  // ----- Leaves: groups and concatenations are transparent -----

  /** The nodes that the literal extraction counts as one position each, in order. */
  function Leaves(h: Hir): seq<Hir>
    decreases h, 1
  {
    match h
    case Group(g) => Leaves(g)
    case Concat(hs) => LeavesSeq(hs)
    case _ => [h]
  }

  function LeavesSeq(hs: seq<Hir>): seq<Hir>
    decreases hs, 0
  {
    if hs == [] then [] else Leaves(hs[0]) + LeavesSeq(hs[1..])
  }

  lemma {:induction false} LeavesSeqAppend(xs: seq<Hir>, ys: seq<Hir>)
    ensures LeavesSeq(xs + ys) == LeavesSeq(xs) + LeavesSeq(ys)
    decreases |xs|
  {
    if xs == [] {
      assert xs + ys == ys;
    } else {
      assert (xs + ys)[0] == xs[0] && (xs + ys)[1..] == xs[1..] + ys;
      LeavesSeqAppend(xs[1..], ys);
    }
  }

  /** A node matches exactly what the sequence of its leaves matches. */
  lemma {:induction false} MatchesLeaves(h: Hir, dotAll: bool, mem: bytes, i: nat, j: nat)
    ensures Matches(h, dotAll, mem, i, j) <==> MatchesSeq(Leaves(h), dotAll, mem, i, j)
    decreases h, 1
  {
    match h
    case Group(g) =>
      MatchesLeaves(g, dotAll, mem, i, j);
      if MatchesSeq(Leaves(g), dotAll, mem, i, j) { MatchesSeqBounds(Leaves(g), dotAll, mem, i, j); }
    case Concat(hs) =>
      MatchesLeavesSeq(hs, dotAll, mem, i, j);
      if MatchesSeq(hs, dotAll, mem, i, j) { MatchesSeqBounds(hs, dotAll, mem, i, j); }
    case _ => MatchesSeqOne(h, dotAll, mem, i, j);
  }

  lemma {:induction false} MatchesLeavesSeq(hs: seq<Hir>, dotAll: bool, mem: bytes, i: nat, j: nat)
    ensures MatchesSeq(hs, dotAll, mem, i, j) <==> MatchesSeq(LeavesSeq(hs), dotAll, mem, i, j)
    decreases hs, 0
  {
    if hs != [] {
      if MatchesSeq(hs, dotAll, mem, i, j) {
        var k := MatchesSeqFirst(hs, dotAll, mem, i, j);
        MatchesLeaves(hs[0], dotAll, mem, i, k);
        MatchesLeavesSeq(hs[1..], dotAll, mem, k, j);
        MatchesSeqJoin(Leaves(hs[0]), LeavesSeq(hs[1..]), dotAll, mem, i, k, j);
      }
      if MatchesSeq(LeavesSeq(hs), dotAll, mem, i, j) {
        var k := MatchesSeqSplit(Leaves(hs[0]), LeavesSeq(hs[1..]), dotAll, mem, i, j);
        MatchesLeaves(hs[0], dotAll, mem, i, k);
        MatchesLeavesSeq(hs[1..], dotAll, mem, k, j);
      }
    }
  }

  /** Leaves of a well-formed node are well-formed, and are neither groups nor concatenations. */
  predicate IsLeaf(h: Hir) {
    !h.Group? && !h.Concat?
  }

  lemma {:induction false} LeavesAreLeaves(h: Hir)
    ensures forall k :: 0 <= k < |Leaves(h)| ==> IsLeaf(Leaves(h)[k])
    ensures WellFormed(h) ==> forall k :: 0 <= k < |Leaves(h)| ==> WellFormed(Leaves(h)[k])
    decreases h, 1
  {
    match h
    case Group(g) => LeavesAreLeaves(g);
    case Concat(hs) => LeavesSeqAreLeaves(hs);
    case _ =>
  }

  lemma {:induction false} LeavesSeqAreLeaves(hs: seq<Hir>)
    ensures forall k :: 0 <= k < |LeavesSeq(hs)| ==> IsLeaf(LeavesSeq(hs)[k])
    ensures AllWellFormed(hs) ==>
              forall k :: 0 <= k < |LeavesSeq(hs)| ==> WellFormed(LeavesSeq(hs)[k])
    decreases hs, 0
  {
    if hs != [] {
      LeavesAreLeaves(hs[0]);
      LeavesSeqAreLeaves(hs[1..]);
    }
  }
}
