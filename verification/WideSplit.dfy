/** The split of a HIR around its literals, on wide text: the literals are widened, and so are both halves
    (`matcher/mod.rs`, `matcher/validator/dfa.rs`). */
module WideSplit {
  import opened Base
  import opened Hir
  import opened Atoms
  import opened Literals
  import opened Split
  import opened Widener

  function WidenedOption(h: Option<Hir>): Option<Hir> {
    if h.Some? then Some(Widened(h.value)) else None
  }

  function WideDetails(d: Details): Details {
    Details(WideAll(d.literals), WidenedOption(d.pre), WidenedOption(d.post))
  }

  // ----- The leaves of a widened HIR -----

  /** The leaves, each widened on its own. */
  function AloneAll(ls: seq<Hir>): (r: seq<Hir>)
    ensures |r| == |ls| && forall k :: 0 <= k < |ls| ==> r[k] == Alone(ls[k])
  {
    seq(|ls|, k requires 0 <= k < |ls| => Alone(ls[k]))
  }

  lemma AloneAllAppend(xs: seq<Hir>, ys: seq<Hir>)
    ensures AloneAll(xs + ys) == AloneAll(xs) + AloneAll(ys)
  {
  }

  /** A list in a concatenation matches as its nodes widened one by one. */
  lemma {:induction false} PlacedIsAlone(hs: seq<Hir>, dotAll: bool, mem: bytes, i: nat, j: nat)
    ensures MatchesSeq(Placed(hs, true), dotAll, mem, i, j) <==> MatchesSeq(AloneAll(hs), dotAll, mem, i, j)
    decreases |hs|, 1
  {
    if hs != [] {
      var placed, rest := Place(hs[0], true), Placed(hs[1..], true);
      var one, others := [Alone(hs[0])], AloneAll(hs[1..]);
      assert AloneAll(hs) == one + others;
      if MatchesSeq(placed + rest, dotAll, mem, i, j) {
        var k := MatchesSeqSplit(placed, rest, dotAll, mem, i, j);
        FirstIsAlone(hs, dotAll, mem, i, k, j);
        MatchesSeqJoin(one, others, dotAll, mem, i, k, j);
      }
      if MatchesSeq(one + others, dotAll, mem, i, j) {
        var k := MatchesSeqSplit(one, others, dotAll, mem, i, j);
        FirstIsAlone(hs, dotAll, mem, i, k, j);
        MatchesSeqJoin(placed, rest, dotAll, mem, i, k, j);
      }
    }
  }

  lemma {:induction false} FirstIsAlone(hs: seq<Hir>, dotAll: bool, mem: bytes, i: nat, k: nat, j: nat)
    requires hs != []
    ensures MatchesSeq(Place(hs[0], true), dotAll, mem, i, k) <==> MatchesSeq([Alone(hs[0])], dotAll, mem, i, k)
    ensures MatchesSeq(Placed(hs[1..], true), dotAll, mem, k, j) <==> MatchesSeq(AloneAll(hs[1..]), dotAll, mem, k, j)
    decreases |hs|, 0
  {
    MatchesPlace(hs[0], true, dotAll, mem, i, k);
    MatchesSeqOne(Alone(hs[0]), dotAll, mem, i, k);
    PlacedIsAlone(hs[1..], dotAll, mem, k, j);
  }

  /** A widened HIR matches where its widened leaves do. */
  lemma {:induction false} WidenedLeaves(h: Hir, dotAll: bool, mem: bytes, i: nat, j: nat)
    ensures Matches(Widened(h), dotAll, mem, i, j) <==> MatchesSeq(AloneAll(Leaves(h)), dotAll, mem, i, j)
    decreases h, 1
  {
    MatchesAlone(h, dotAll, mem, i, j);
    match h
    case Group(g) =>
      MatchesAlone(g, dotAll, mem, i, j);
      WidenedLeaves(g, dotAll, mem, i, j);
      GroupMatches(Alone(g), dotAll, mem, i, j);
    case Concat(hs) =>
      PlacedIsAlone(hs, dotAll, mem, i, j);
      WidenedLeavesSeq(hs, dotAll, mem, i, j);
      ConcatMatches(Placed(hs, true), dotAll, mem, i, j);
    case _ =>
      assert AloneAll(Leaves(h)) == [Alone(h)];
      MatchesSeqOne(Alone(h), dotAll, mem, i, j);
  }

  lemma GroupMatches(g: Hir, dotAll: bool, mem: bytes, i: nat, j: nat)
    ensures Matches(Group(g), dotAll, mem, i, j) <==> Matches(g, dotAll, mem, i, j)
  {
  }

  lemma ConcatMatches(hs: seq<Hir>, dotAll: bool, mem: bytes, i: nat, j: nat)
    ensures Matches(Concat(hs), dotAll, mem, i, j) <==> MatchesSeq(hs, dotAll, mem, i, j)
  {
    if MatchesSeq(hs, dotAll, mem, i, j) { MatchesSeqBounds(hs, dotAll, mem, i, j); }
  }

  lemma {:induction false} WidenedLeavesSeq(hs: seq<Hir>, dotAll: bool, mem: bytes, i: nat, j: nat)
    ensures MatchesSeq(AloneAll(hs), dotAll, mem, i, j) <==> MatchesSeq(AloneAll(LeavesSeq(hs)), dotAll, mem, i, j)
    decreases hs, 0
  {
    if hs != [] {
      var one, others := [Alone(hs[0])], AloneAll(hs[1..]);
      var first, rest := AloneAll(Leaves(hs[0])), AloneAll(LeavesSeq(hs[1..]));
      assert AloneAll(hs) == one + others;
      AloneAllAppend(Leaves(hs[0]), LeavesSeq(hs[1..]));
      if MatchesSeq(one + others, dotAll, mem, i, j) {
        var k := MatchesSeqSplit(one, others, dotAll, mem, i, j);
        MatchesSeqOne(Alone(hs[0]), dotAll, mem, i, k);
        MatchesAlone(hs[0], dotAll, mem, i, k);
        WidenedLeaves(hs[0], dotAll, mem, i, k);
        WidenedLeavesSeq(hs[1..], dotAll, mem, k, j);
        MatchesSeqJoin(first, rest, dotAll, mem, i, k, j);
      }
      if MatchesSeq(first + rest, dotAll, mem, i, j) {
        var k := MatchesSeqSplit(first, rest, dotAll, mem, i, j);
        WidenedLeaves(hs[0], dotAll, mem, i, k);
        MatchesAlone(hs[0], dotAll, mem, i, k);
        MatchesSeqOne(Alone(hs[0]), dotAll, mem, i, k);
        WidenedLeavesSeq(hs[1..], dotAll, mem, k, j);
        MatchesSeqJoin(one, others, dotAll, mem, i, k, j);
      }
    }
  }

  // ----- The leaves of the literals -----

  lemma {:induction false} RunIsPlain(ls: seq<Hir>)
    requires IsRun(ls)
    ensures AssertionFreeAll(ls)
    decreases |ls|
  {
    if ls != [] { RunIsPlain(ls[1..]); }
  }

  lemma {:induction false} LiteralBytesPlain(hs: seq<Hir>)
    requires LiteralBytes(hs).Some?
    ensures AssertionFreeAll(hs)
    decreases |hs|
  {
    if hs != [] { LiteralBytesPlain(hs[1..]); }
  }

  lemma {:induction false} BranchesArePlain(alts: seq<Hir>)
    requires BranchLiterals(alts).Some?
    ensures AssertionFreeAll(alts)
    decreases |alts|
  {
    if alts != [] {
      BranchesArePlain(alts[1..]);
      if alts[0].Concat? { LiteralBytesPlain(alts[0].hirs); }
    }
  }

  lemma AtomsArePlain(ls: seq<Hir>, dotAll: bool, a: Atoms)
    requires ValidAtoms(ls, dotAll, a)
    ensures a.start < a.end <= |ls| && AssertionFreeAll(ls[a.start..a.end])
  {
    if RunAtoms(ls, dotAll, a) {
      RunIsPlain(ls[a.start..a.end]);
    } else {
      var alt := ls[a.start];
      BranchesArePlain(alt.alts);
      assert ls[a.start..a.end] == [alt];
      HasAnyOne(alt, LineAssertion);
      HasAnyOne(alt, BoundaryAssertion);
    }
  }

  /** The leaves of the literals, widened, match exactly the wide literals. */
  lemma WideAtomsMatch(ls: seq<Hir>, dotAll: bool, a: Atoms, mem: bytes, i: nat, j: nat)
    requires ValidAtoms(ls, dotAll, a)
    ensures a.start < a.end <= |ls|
    ensures MatchesSeq(AloneAll(ls[a.start..a.end]), dotAll, mem, i, j)
       <==> i <= j <= |mem| && mem[i..j] in WideAll(a.literals)
  {
    AtomsArePlain(ls, dotAll, a);
    var hs := ls[a.start..a.end];
    var h := Concat(hs);
    PlacedIsAlone(hs, dotAll, mem, i, j);
    ConcatMatches(Placed(hs, true), dotAll, mem, i, j);
    if MatchesSeq(Placed(hs, true), dotAll, mem, i, j) { MatchesSeqBounds(Placed(hs, true), dotAll, mem, i, j); }
    if i <= j <= |mem| {
      WidenedLanguage(h, dotAll, mem, i, j);
      forall s ensures Matches(h, dotAll, s, 0, |s|) <==> s in a.literals {
        ConcatMatches(hs, dotAll, s, 0, |s|);
        AtomsMatch(ls, dotAll, a, s, 0, |s|);
        assert s[0..|s|] == s;
      }
      InWideAll(a.literals, mem[i..j]);
    }
  }

  lemma InWideAll(ws: seq<bytes>, w: bytes)
    ensures w in WideAll(ws) <==> exists s :: w == Wide(s) && s in ws
  {
    if w in WideAll(ws) {
      var k :| 0 <= k < |WideAll(ws)| && WideAll(ws)[k] == w;
      assert w == Wide(ws[k]) && ws[k] in ws;
    }
    if s :| w == Wide(s) && s in ws {
      var k :| 0 <= k < |ws| && ws[k] == s;
      assert WideAll(ws)[k] == w;
    }
  }

  // ----- The halves -----

  lemma WidePreMatches(ls: seq<Hir>, a: Atoms, d: Details, dotAll: bool, mem: bytes, i: nat, p: nat, q: nat)
    requires Halves(ls, a, d) && MatchesSeq(AloneAll(ls[a.start..a.end]), dotAll, mem, p, q)
    ensures var before, mid := AloneAll(ls[..a.start]), AloneAll(ls[a.start..a.end]);
            && (PreHolds(WideDetails(d), dotAll, mem, i, p, q) ==> MatchesSeq(before + mid, dotAll, mem, i, q))
            && (MatchesSeq(before + mid, dotAll, mem, i, q) && (a.start == 0 ==> i == p) ==>
                  PreHolds(WideDetails(d), dotAll, mem, i, p, q))
  {
    assert ls[..a.start] + ls[a.start..a.end] == ls[..a.end];
    AloneAllAppend(ls[..a.start], ls[a.start..a.end]);
    if d.pre.Some? {
      WidenedLeaves(d.pre.value, dotAll, mem, i, q);
    } else {
      assert ls[..a.end] == ls[a.start..a.end];
    }
  }

  lemma WidePostMatches(ls: seq<Hir>, a: Atoms, d: Details, dotAll: bool, mem: bytes, p: nat, q: nat, j: nat)
    requires Halves(ls, a, d) && MatchesSeq(AloneAll(ls[a.start..a.end]), dotAll, mem, p, q)
    ensures var mid, after := AloneAll(ls[a.start..a.end]), AloneAll(ls[a.end..]);
            && (PostHolds(WideDetails(d), dotAll, mem, p, q, j) ==> MatchesSeq(mid + after, dotAll, mem, p, j))
            && (MatchesSeq(mid + after, dotAll, mem, p, j) && (a.end == |ls| ==> q == j) ==>
                  PostHolds(WideDetails(d), dotAll, mem, p, q, j))
  {
    assert ls[a.start..a.end] + ls[a.end..] == ls[a.start..];
    AloneAllAppend(ls[a.start..a.end], ls[a.end..]);
    if d.post.Some? {
      WidenedLeaves(d.post.value, dotAll, mem, p, j);
    } else {
      assert ls[a.start..] == ls[a.start..a.end];
    }
  }

  lemma ThreeParts(ls: seq<Hir>, a: Atoms)
    requires a.start < a.end <= |ls|
    ensures AloneAll(ls) == AloneAll(ls[..a.start]) + (AloneAll(ls[a.start..a.end]) + AloneAll(ls[a.end..]))
  {
    assert ls == ls[..a.start] + (ls[a.start..a.end] + ls[a.end..]);
    AloneAllAppend(ls[..a.start], ls[a.start..a.end] + ls[a.end..]);
    AloneAllAppend(ls[a.start..a.end], ls[a.end..]);
  }

  // ----- Completeness and exactness on wide text -----

  lemma WideLeavesComplete(ls: seq<Hir>, a: Atoms, d: Details, dotAll: bool, mem: bytes, i: nat, j: nat)
      returns (p: nat, q: nat)
    requires ValidAtoms(ls, dotAll, a) && Halves(ls, a, d) && MatchesSeq(AloneAll(ls), dotAll, mem, i, j)
    ensures Validated(WideDetails(d), dotAll, mem, i, p, q, j)
    ensures i <= p <= q <= j
  {
    var before, mid, after := AloneAll(ls[..a.start]), AloneAll(ls[a.start..a.end]), AloneAll(ls[a.end..]);
    ThreeParts(ls, a);
    p := MatchesSeqSplit(before, mid + after, dotAll, mem, i, j);
    q := MatchesSeqSplit(mid, after, dotAll, mem, p, j);
    MatchesSeqBounds(before, dotAll, mem, i, p);
    MatchesSeqBounds(after, dotAll, mem, q, j);
    WideAtomsMatch(ls, dotAll, a, mem, p, q);
    MatchesSeqJoin(before, mid, dotAll, mem, i, p, q);
    assert a.start == 0 ==> before == [];
    assert a.end == |ls| ==> after == [];
    WidePreMatches(ls, a, d, dotAll, mem, i, p, q);
    WidePostMatches(ls, a, d, dotAll, mem, p, q, j);
  }

  /** Around every match of the widened HIR, a wide literal is found inside it and validated by the widened halves. */
  lemma WideSplitComplete(h: Hir, dotAll: bool, mem: bytes, i: nat, j: nat) returns (p: nat, q: nat)
    requires Extracted(h, dotAll).best.Some? && Matches(Widened(h), dotAll, mem, i, j)
    ensures Validated(WideDetails(DetailsOf(h, dotAll)), dotAll, mem, i, p, q, j)
    ensures i <= p <= q <= j
  {
    var a := Extracted(h, dotAll).best.value;
    ExtractedValid(h, dotAll);
    SplitHalves(h, a);
    WidenedLeaves(h, dotAll, mem, i, j);
    p, q := WideLeavesComplete(Leaves(h), a, SplitAt(h, a), dotAll, mem, i, j);
  }

  lemma WideLength(ls: seq<Hir>, dotAll: bool, a: Atoms, u: bytes, v: bytes)
    requires RunAtoms(ls, dotAll, a) && u in WideAll(a.literals) && v in WideAll(a.literals)
    ensures |u| == |v|
  {
    InWideAll(a.literals, u);
    InWideAll(a.literals, v);
    var s :| u == Wide(s) && s in a.literals;
    var t :| v == Wide(t) && t in a.literals;
    RunAtomsLength(ls, dotAll, a, s, t);
  }

  lemma WideLeavesSound(ls: seq<Hir>, a: Atoms, d: Details, dotAll: bool, mem: bytes, i: nat, p: nat, q: nat, j: nat)
    requires RunAtoms(ls, dotAll, a) && Halves(ls, a, d) && Validated(WideDetails(d), dotAll, mem, i, p, q, j)
    ensures MatchesSeq(AloneAll(ls), dotAll, mem, i, j)
  {
    var before, mid, after := AloneAll(ls[..a.start]), AloneAll(ls[a.start..a.end]), AloneAll(ls[a.end..]);
    WideAtomsMatch(ls, dotAll, a, mem, p, q);
    WidePreMatches(ls, a, d, dotAll, mem, i, p, q);
    WidePostMatches(ls, a, d, dotAll, mem, p, q, j);
    var k := MatchesSeqSplit(before, mid, dotAll, mem, i, q);
    var m := MatchesSeqSplit(mid, after, dotAll, mem, p, j);
    WideAtomsMatch(ls, dotAll, a, mem, k, q);
    WideAtomsMatch(ls, dotAll, a, mem, p, m);
    WideLength(ls, dotAll, a, mem[k..q], mem[p..q]);
    WideLength(ls, dotAll, a, mem[p..m], mem[p..q]);
    JoinThree(before, mid, after, dotAll, mem, i, k, m, j);
    ThreeParts(ls, a);
  }

  /** When the literals come from a run, the widened HIR matches exactly around the wide literals that the widened halves
      validate. */
  lemma WideSplitExact(h: Hir, dotAll: bool, mem: bytes, i: nat, j: nat)
    requires Extracted(h, dotAll).best.Some? && RunAtoms(Leaves(h), dotAll, Extracted(h, dotAll).best.value)
    ensures Matches(Widened(h), dotAll, mem, i, j)
       <==> exists p: nat, q: nat :: Validated(WideDetails(DetailsOf(h, dotAll)), dotAll, mem, i, p, q, j)
  {
    var a := Extracted(h, dotAll).best.value;
    if Matches(Widened(h), dotAll, mem, i, j) { var p, q := WideSplitComplete(h, dotAll, mem, i, j); }
    if p: nat, q: nat :| Validated(WideDetails(DetailsOf(h, dotAll)), dotAll, mem, i, p, q, j) {
      SplitHalves(h, a);
      WideLeavesSound(Leaves(h), a, SplitAt(h, a), dotAll, mem, i, p, q, j);
      WidenedLeaves(h, dotAll, mem, i, j);
    }
  }
}
