/** When the split around the literals of an alternation is exact: both halves choose a branch on their own. */
module Branches {
  import opened Base
  import opened Hir
  import opened Atoms
  import opened Literals
  import opened Split

  /** `a` and `u` agree when they end at the same place. */
  predicate AgreeAtEnd(a: bytes, u: bytes) {
    if |a| <= |u| then u[|u| - |a|..] == a else a[|a| - |u|..] == u
  }

  /** `b` and `u` agree when they start at the same place. */
  predicate AgreeAtStart(b: bytes, u: bytes) {
    if |b| <= |u| then u[..|b|] == b else b[..|u|] == u
  }

  /** The bytes laid out when `a` ends, and `b` starts, where `u` does. */
  function Overlay(a: bytes, u: bytes, b: bytes): bytes {
    (if |a| > |u| then a[..|a| - |u|] else []) + u + (if |b| > |u| then b[|u|..] else [])
  }

  /** Where `a` starts and where `b` ends in the overlay. */
  function From(a: bytes, u: bytes): nat {
    if |a| < |u| then |u| - |a| else 0
  }

  function To(a: bytes, u: bytes, b: bytes): nat {
    |Overlay(a, u, b)| - if |b| < |u| then |u| - |b| else 0
  }

  /** From the start of `a` to the end of `b` stands a literal too. */
  predicate Merges(lits: seq<bytes>, a: bytes, u: bytes, b: bytes) {
    From(a, u) <= To(a, u, b) && Overlay(a, u, b)[From(a, u)..To(a, u, b)] in lits
  }

  /** Whenever one literal can end, and another one start, where a third one does, the bytes from the start of the
      first to the end of the second are a literal as well. Literals of equal lengths always are mergeable. */
  ghost predicate Mergeable(lits: seq<bytes>) {
    forall a, u, b :: a in lits && u in lits && b in lits && AgreeAtEnd(a, u) && AgreeAtStart(b, u) ==> Merges(lits, a, u, b)
  }

  lemma EqualLengthsMerge(lits: seq<bytes>)
    requires forall u, v :: u in lits && v in lits ==> |u| == |v|
    ensures Mergeable(lits)
  {
    forall a, u, b | a in lits && u in lits && b in lits && AgreeAtEnd(a, u) && AgreeAtStart(b, u)
      ensures Merges(lits, a, u, b)
    {
      assert Overlay(a, u, b)[From(a, u)..To(a, u, b)] == u;
    }
  }

  // ----- Mergeable literals make the split exact -----

  lemma OverlayIsSlice(mem: bytes, k: nat, p: nat, q: nat, m: nat, lo: nat, hi: nat)
    requires k <= q <= |mem| && p <= q && p <= m <= |mem|
    requires lo == (if k < p then k else p) && hi == (if m < q then q else m)
    ensures Overlay(mem[k..q], mem[p..q], mem[p..m]) == mem[lo..hi]
  {
    var a, u, b := mem[k..q], mem[p..q], mem[p..m];
    if k < p { SliceOfSlice(mem, k, q, 0, p - k); }
    if m > q { SliceOfSlice(mem, p, m, q - p, m - p); }
    assert (if |a| > |u| then a[..|a| - |u|] else []) == mem[lo..p];
    assert (if |b| > |u| then b[|u|..] else []) == mem[q..hi];
  }

  lemma OverlayInMemory(mem: bytes, k: nat, p: nat, q: nat, m: nat)
    requires k <= q <= |mem| && p <= q && p <= m <= |mem|
    ensures AgreeAtEnd(mem[k..q], mem[p..q]) && AgreeAtStart(mem[p..m], mem[p..q])
    ensures var a, u, b := mem[k..q], mem[p..q], mem[p..m];
      From(a, u) <= To(a, u, b) ==> k <= m && Overlay(a, u, b)[From(a, u)..To(a, u, b)] == mem[k..m]
  {
    var a, u, b := mem[k..q], mem[p..q], mem[p..m];
    var lo := if k < p then k else p;
    var hi := if m < q then q else m;
    OverlayIsSlice(mem, k, p, q, m, lo, hi);
    assert From(a, u) == k - lo && To(a, u, b) == m - lo;
    if From(a, u) <= To(a, u, b) { SliceOfSlice(mem, lo, hi, k - lo, m - lo); }
  }

  /** The extraction chose the literals of the alternation `alts`. */
  ghost predicate ChoosesBranches(h: Hir, dotAll: bool, alts: seq<Hir>) {
    var best := Extracted(h, dotAll).best;
    best.Some? && BranchAtoms(Leaves(h), best.value) && Leaves(h)[best.value.start] == Alternation(alts)
  }

  /** Every validated literal is inside a match. */
  ghost predicate SplitSound(h: Hir, dotAll: bool) {
    forall mem: bytes, i: nat, p: nat, q: nat, j: nat ::
      Validated(DetailsOf(h, dotAll), dotAll, mem, i, p, q, j) ==> Matches(h, dotAll, mem, i, j)
  }

  lemma MergeableLeavesSound(ls: seq<Hir>, a: Atoms, d: Details, dotAll: bool, mem: bytes, i: nat, p: nat, q: nat, j: nat)
    requires ValidAtoms(ls, dotAll, a) && Halves(ls, a, d) && Validated(d, dotAll, mem, i, p, q, j)
    requires Mergeable(a.literals)
    ensures MatchesSeq(ls, dotAll, mem, i, j)
  {
    var k, m := ValidatedChoices(ls, a, d, dotAll, mem, i, p, q, j);
    OverlayInMemory(mem, k, p, q, m);
    assert Merges(a.literals, mem[k..q], mem[p..q], mem[p..m]);
    AroundLiteral(ls, a, dotAll, mem, i, k, m, j);
  }

  lemma MergeableSplitSound(h: Hir, dotAll: bool)
    requires Extracted(h, dotAll).best.Some? && Mergeable(Extracted(h, dotAll).best.value.literals)
    ensures SplitSound(h, dotAll)
  {
    var a := Extracted(h, dotAll).best.value;
    ExtractedValid(h, dotAll);
    SplitHalves(h, a);
    forall mem: bytes, i: nat, p: nat, q: nat, j: nat | Validated(DetailsOf(h, dotAll), dotAll, mem, i, p, q, j)
      ensures Matches(h, dotAll, mem, i, j)
    {
      MergeableLeavesSound(Leaves(h), a, SplitAt(h, a), dotAll, mem, i, p, q, j);
      MatchesLeaves(h, dotAll, mem, i, j);
    }
  }

  // ----- Otherwise some HIR shows that it is not -----

  /** The bytes of `w`, each under a repetition, so that the extraction makes no run of them. */
  function Ones(w: bytes): seq<Hir> {
    if w == [] then [] else [Repetition(Literal(w[0]), Exactly(1), false)] + Ones(w[1..])
  }

  lemma OneMatches(b: byte, dotAll: bool, mem: bytes, i: nat, j: nat)
    ensures Matches(Repetition(Literal(b), Exactly(1), false), dotAll, mem, i, j)
       <==> j == i + 1 && j <= |mem| && mem[i] == b
  {
    var one := Literal(b);
    if Matches(Repetition(one, Exactly(1), false), dotAll, mem, i, j) {
      assert MatchesTimes(one, 1, dotAll, mem, i, j);
      var k := MatchesTimesFirst(one, 1, dotAll, mem, i, j);
    }
    if j == i + 1 && j <= |mem| && mem[i] == b {
      assert Matches(one, dotAll, mem, i, j) && MatchesTimes(one, 0, dotAll, mem, j, j);
      assert MatchesTimes(one, 1, dotAll, mem, i, j) && CountAllowed(Exactly(1), 1);
    }
  }

  lemma {:induction false} OnesMatch(w: bytes, dotAll: bool, mem: bytes, i: nat, j: nat)
    ensures |Ones(w)| == |w|
    ensures MatchesSeq(Ones(w), dotAll, mem, i, j) <==> i <= j <= |mem| && mem[i..j] == w
    decreases |w|
  {
    if w != [] {
      assert Ones(w)[1..] == Ones(w[1..]);
      OneMatches(w[0], dotAll, mem, i, i + 1);
      OnesMatch(w[1..], dotAll, mem, i + 1, j);
      if MatchesSeq(Ones(w), dotAll, mem, i, j) {
        var k := MatchesSeqFirst(Ones(w), dotAll, mem, i, j);
        OneMatches(w[0], dotAll, mem, i, k);
        assert mem[i..j] == [mem[i]] + mem[i + 1..j];
      }
      if i <= j <= |mem| && mem[i..j] == w {
        assert |mem[i..j]| == |w|;
        assert mem[i] == mem[i..j][0] && mem[i + 1..j] == mem[i..j][1..];
      }
    } else if i <= j <= |mem| {
      assert mem[i..j] == [] <==> i == j;
    }
  }

  /** The extraction walks over `Ones` without finding anything. */
  lemma {:induction false} OnesFold(w: bytes, dotAll: bool, s: Extraction)
    requires s.run == []
    ensures FoldLeaves(dotAll, Ones(w), s) == s.(position := s.position + |w|)
    decreases |w|
  {
    if w != [] { OnesFold(w[1..], dotAll, s.(position := s.position + 1)); }
  }

  function Around(x: bytes, alts: seq<Hir>, y: bytes): Hir {
    Concat(Ones(x) + [Group(Alternation(alts))] + Ones(y))
  }

  lemma {:induction false} LeavesOfOnes(w: bytes)
    ensures LeavesSeq(Ones(w)) == Ones(w)
  {
    if w != [] { LeavesOfOnes(w[1..]); }
  }

  lemma LeavesOfAround(x: bytes, alts: seq<Hir>, y: bytes)
    ensures Leaves(Around(x, alts, y)) == Ones(x) + [Alternation(alts)] + Ones(y)
  {
    var g := [Group(Alternation(alts))];
    LeavesOfOnes(x);
    LeavesOfOnes(y);
    LeavesSeqAppend(Ones(x) + g, Ones(y));
    LeavesSeqAppend(Ones(x), g);
    assert g[1..] == [];
    assert Leaves(g[0]) == [Alternation(alts)] && LeavesSeq(g) == Leaves(g[0]) + LeavesSeq(g[1..]);
  }

  function AtomsOfBranches(x: bytes, lits: seq<bytes>): Atoms {
    Atoms(|x|, |x| + 1, lits, AtomsRank(lits))
  }

  /** The literals of the alternation are the only ones there are to choose. */
  lemma AroundExtracts(x: bytes, alts: seq<Hir>, y: bytes, dotAll: bool)
    requires BranchLiterals(alts).Some?
    ensures Extracted(Around(x, alts, y), dotAll).best == Some(AtomsOfBranches(x, BranchLiterals(alts).value))
    ensures ChoosesBranches(Around(x, alts, y), dotAll, alts)
  {
    var h, alt := Around(x, alts, y), [Alternation(alts)];
    LeavesOfAround(x, alts, y);
    OnesMatch(x, dotAll, [], 0, 0);
    FoldAppend(dotAll, Ones(x) + alt, Ones(y), BEGIN);
    FoldAppend(dotAll, Ones(x), alt, BEGIN);
    OnesFold(x, dotAll, BEGIN);
    var s1 := BEGIN.(position := |x|);
    assert alt[1..] == [];
    assert FoldLeaves(dotAll, alt, s1) == FoldLeaf(dotAll, s1, alt[0]);
    var s2 := Extraction(Some(AtomsOfBranches(x, BranchLiterals(alts).value)), [], |x| + 1);
    assert FoldLeaf(dotAll, s1, alt[0]) == s2;
    OnesFold(y, dotAll, s2);
  }

  /** The surroundings in which the branches `a` and `b` are chosen on the two sides of the literal `u`. */
  lemma AroundRefutes(alts: seq<Hir>, a: bytes, u: bytes, b: bytes, dotAll: bool)
    requires BranchLiterals(alts).Some?
    requires var lits := BranchLiterals(alts).value; a in lits && u in lits && b in lits
    requires AgreeAtEnd(a, u) && AgreeAtStart(b, u) && !Merges(BranchLiterals(alts).value, a, u, b)
    ensures exists h :: ChoosesBranches(h, dotAll, alts) && !SplitSound(h, dotAll)
  {
    var mem := [0] + Overlay(a, u, b) + [0];
    var lo, hi := 1 + From(a, u), 1 + To(a, u, b);
    var p := 1 + if |a| > |u| then |a| - |u| else 0;
    var q := p + |u|;
    var h := Around(mem[..lo], alts, mem[hi..]);
    OverlaySlices(a, u, b, mem, lo, p, q, hi);
    AroundExtracts(mem[..lo], alts, mem[hi..], dotAll);
    AroundValidated(alts, dotAll, mem, lo, p, q, hi);
    if Matches(h, dotAll, mem, 0, |mem|) {
      AroundMatches(alts, dotAll, mem, lo, hi);
      assert false;
    }
  }

  lemma OverlaySlices(a: bytes, u: bytes, b: bytes, mem: bytes, lo: nat, p: nat, q: nat, hi: nat)
    requires AgreeAtEnd(a, u) && AgreeAtStart(b, u)
    requires mem == [0] + Overlay(a, u, b) + [0]
    requires lo == 1 + From(a, u) && hi == 1 + To(a, u, b)
    requires p == (1 + if |a| > |u| then |a| - |u| else 0) && q == p + |u|
    ensures 0 < lo <= q <= |mem| && p <= q && p <= hi < |mem|
    ensures mem[p..q] == u && mem[lo..q] == a && mem[p..hi] == b
    ensures lo <= hi ==> mem[lo..hi] == Overlay(a, u, b)[From(a, u)..To(a, u, b)]
  {
  }

  /** The halves accept the literal at `p..q`, the first one with `mem[lo..q]` and the second one with `mem[p..hi]`. */
  lemma AroundValidated(alts: seq<Hir>, dotAll: bool, mem: bytes, lo: nat, p: nat, q: nat, hi: nat)
    requires BranchLiterals(alts).Some?
    requires 0 < lo <= q <= |mem| && p <= q && p <= hi < |mem|
    requires var lits := BranchLiterals(alts).value; mem[lo..q] in lits && mem[p..q] in lits && mem[p..hi] in lits
    ensures Validated(DetailsOf(Around(mem[..lo], alts, mem[hi..]), dotAll), dotAll, mem, 0, p, q, |mem|)
  {
    var x, y, lits := mem[..lo], mem[hi..], BranchLiterals(alts).value;
    var h, a := Around(x, alts, y), AtomsOfBranches(x, lits);
    AroundExtracts(x, alts, y, dotAll);
    LeavesOfAround(x, alts, y);
    var ls, d := Leaves(h), SplitAt(h, a);
    SplitHalves(h, a);
    OnesMatch(x, dotAll, mem, 0, lo);
    OnesMatch(y, dotAll, mem, hi, |mem|);
    assert mem[0..lo] == x && mem[hi..|mem|] == y;
    assert ls[..a.start] == Ones(x) && ls[a.end..] == Ones(y);
    AtomsMatch(ls, dotAll, a, mem, lo, q);
    AtomsMatch(ls, dotAll, a, mem, p, q);
    AtomsMatch(ls, dotAll, a, mem, p, hi);
    MatchesSeqJoin(ls[..a.start], ls[a.start..a.end], dotAll, mem, 0, lo, q);
    MatchesSeqJoin(ls[a.start..a.end], ls[a.end..], dotAll, mem, p, hi, |mem|);
    PreMatches(ls, a, d, dotAll, mem, 0, p, q);
    PostMatches(ls, a, d, dotAll, mem, p, q, |mem|);
  }

  /** A match leaves exactly `mem[lo..hi]` to the alternation. */
  lemma AroundMatches(alts: seq<Hir>, dotAll: bool, mem: bytes, lo: nat, hi: nat)
    requires BranchLiterals(alts).Some? && lo <= |mem| && hi <= |mem|
    requires Matches(Around(mem[..lo], alts, mem[hi..]), dotAll, mem, 0, |mem|)
    ensures lo <= hi && mem[lo..hi] in BranchLiterals(alts).value
  {
    var x, y, alt := mem[..lo], mem[hi..], [Alternation(alts)];
    var h := Around(x, alts, y);
    LeavesOfAround(x, alts, y);
    MatchesLeaves(h, dotAll, mem, 0, |mem|);
    var m := MatchesSeqSplit(Ones(x) + alt, Ones(y), dotAll, mem, 0, |mem|);
    var k := MatchesSeqSplit(Ones(x), alt, dotAll, mem, 0, m);
    OnesMatch(x, dotAll, mem, 0, k);
    OnesMatch(y, dotAll, mem, m, |mem|);
    assert |mem[0..k]| == k && |mem[m..|mem|]| == |mem| - m;
    MatchesSeqOne(Alternation(alts), dotAll, mem, k, m);
    BranchLiteralsMatch(alts, dotAll, mem, k, m);
  }

  /** Exact characterisation for alternations: the split is exact in every HIR that chooses the literals of `alts`, if
      and only if these literals are mergeable. */
  lemma BranchSplitExactIff(alts: seq<Hir>)
    requires BranchLiterals(alts).Some?
    ensures Mergeable(BranchLiterals(alts).value)
       <==> forall h, dotAll :: ChoosesBranches(h, dotAll, alts) ==> SplitSound(h, dotAll)
  {
    var lits := BranchLiterals(alts).value;
    if Mergeable(lits) {
      forall h, dotAll | ChoosesBranches(h, dotAll, alts) ensures SplitSound(h, dotAll) {
        MergeableSplitSound(h, dotAll);
      }
    } else {
      var a, u, b :| a in lits && u in lits && b in lits && AgreeAtEnd(a, u) && AgreeAtStart(b, u) && !Merges(lits, a, u, b);
      AroundRefutes(alts, a, u, b, true);
    }
  }

  /** The branches `ab`, `a` and `b` are not mergeable: `b` can end and `a` start where `ab` does, with nothing
      between the two. */
  lemma NotMergeableWitness()
    ensures !Mergeable([[97, 98], [97], [98]])
  {
    var lits: seq<bytes> := [[97, 98], [97], [98]];
    var a, u, b: bytes := [98], [97, 98], [97];
    assert a == lits[2] && u == lits[0] && b == lits[1];
    assert AgreeAtEnd(a, u) && AgreeAtStart(b, u);
    assert From(a, u) == 1 && To(a, u, b) == 1;
    assert Overlay(a, u, b)[1..1] == [];
    assert !Merges(lits, a, u, b);
  }

  /** The regex `a{1}?(ab|a|b)b{1}?` on `ab`: its literal `ab` is found and both halves accept it, but there is no
      match. */
  lemma NotSoundWitness(dotAll: bool)
    ensures var alts := [Concat([Literal(97), Literal(98)]), Literal(97), Literal(98)];
            var h := Around([97], alts, [98]);
            && Validated(DetailsOf(h, dotAll), dotAll, [97, 98], 0, 0, 2, 2)
            && !Matches(h, dotAll, [97, 98], 0, 2)
  {
    var ab := [Literal(97), Literal(98)];
    var alts := [Concat(ab), Literal(97), Literal(98)];
    var mem: bytes := [97, 98];
    LiteralsOfWitness();
    assert mem[..1] == [97] == mem[0..1] && mem[1..] == [98] == mem[1..2] && mem[0..2] == mem && mem[1..1] == [];
    AroundValidated(alts, dotAll, mem, 1, 0, 2, 1);
    if Matches(Around([97], alts, [98]), dotAll, mem, 0, 2) {
      AroundMatches(alts, dotAll, mem, 1, 1);
      assert false;
    }
  }

  lemma LiteralsOfWitness()
    ensures BranchLiterals([Concat([Literal(97), Literal(98)]), Literal(97), Literal(98)]) == Some([[97, 98], [97], [98]])
  {
    var nothing: seq<Hir> := [];
    var noBranch: seq<Hir> := [];
    LiteralBytesCons(98, nothing);
    LiteralBytesCons(97, [Literal(98)]);
    assert [Literal(98)] + nothing == [Literal(98)] && [Literal(97)] + [Literal(98)] == [Literal(97), Literal(98)];
    var ab := Concat([Literal(97), Literal(98)]);
    BranchLiteralsCons(Literal(98), noBranch);
    BranchLiteralsCons(Literal(97), [Literal(98)]);
    BranchLiteralsCons(ab, [Literal(97), Literal(98)]);
    assert [Literal(98)] + noBranch == [Literal(98)];
    var a, b, none: bytes := [97], [98], [];
    assert b + none == b && a + b == [97, 98] && LiteralBytes([Literal(98)]) == Some(b);
    var bs, noBytes: seq<bytes> := [b], [];
    assert bs + noBytes == bs && [a] + bs == [a, b] && BranchLiterals([Literal(98)]) == Some(bs);
    assert BranchLiteral(ab) == Some([97, 98]) && BranchLiterals([Literal(97), Literal(98)]) == Some([[97], [98]]);
    var all: seq<bytes> := [[97, 98], [97], [98]];
    var first: seq<bytes> := [[97, 98]];
    assert first + [a, b] == all;
    assert [ab] + [Literal(97), Literal(98)] == [ab, Literal(97), Literal(98)];
  }

  lemma LiteralBytesCons(b: byte, hs: seq<Hir>)
    requires LiteralBytes(hs).Some?
    ensures LiteralBytes([Literal(b)] + hs) == Some([b] + LiteralBytes(hs).value)
  {
    assert ([Literal(b)] + hs)[1..] == hs;
  }

  lemma BranchLiteralsCons(h: Hir, hs: seq<Hir>)
    requires BranchLiteral(h).Some? && BranchLiterals(hs).Some?
    ensures BranchLiterals([h] + hs) == Some([BranchLiteral(h).value] + BranchLiterals(hs).value)
  {
    assert ([h] + hs)[1..] == hs;
  }
}
