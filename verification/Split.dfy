/** What the literals of a HIR and its two halves say about its matches: the contract of `get_literals_details`. */
module Split {
  import opened Base
  import opened Hir
  import opened Visitor
  import opened Atoms
  import opened Literals
  import P = PrePost

  datatype Details = Details(literals: seq<bytes>, pre: Option<Hir>, post: Option<Hir>)

  /** The two halves of `h` around the atoms `a`. */
  function SplitAt(h: Hir, a: Atoms): Details {
    var c := P.Cut(a.start, a.end, |Leaves(h)|);
    Details(a.literals, P.Restrict(c, false, h, 0), P.Restrict(c, true, h, 0))
  }

  /** `get_literals_details`: the literals chosen, and the two halves. */
  function DetailsOf(h: Hir, dotAll: bool): Details {
    var best := Extracted(h, dotAll).best;
    if best.None? then Details([], None, None) else SplitAt(h, best.value)
  }

  // ----- The two halves -----

  /** The halves hold the leaves up to the end, and from the start, of the literals; a half that would hold nothing
      but the literals and what follows, or precedes, is absent. */
  ghost predicate Halves(ls: seq<Hir>, a: Atoms, d: Details) {
    && a.start < a.end <= |ls|
    && d.literals == a.literals
    && (d.pre.None? <==> a.start == 0)
    && (d.post.None? <==> a.end == |ls|)
    && (d.pre.Some? ==> Leaves(d.pre.value) == ls[..a.end])
    && (d.post.Some? ==> Leaves(d.post.value) == ls[a.start..])
  }

  lemma SplitHalves(h: Hir, a: Atoms)
    requires a.start < a.end <= |Leaves(h)|
    ensures Halves(Leaves(h), a, SplitAt(h, a))
  {
    var ls, c := Leaves(h), P.Cut(a.start, a.end, |Leaves(h)|);
    P.KeptBefore(c, ls, 0);
    P.RestrictLeaves(c, false, h, 0);
    P.KeptAfter(c, ls, 0);
    P.RestrictLeaves(c, true, h, 0);
    assert ls[..a.end] != [] && ls[a.start..] != [];
  }

  /** An absent half means that the literals touch that end of the match. */
  ghost predicate PreHolds(d: Details, dotAll: bool, mem: bytes, i: nat, p: nat, q: nat) {
    if d.pre.None? then i == p else Matches(d.pre.value, dotAll, mem, i, q)
  }

  ghost predicate PostHolds(d: Details, dotAll: bool, mem: bytes, p: nat, q: nat, j: nat) {
    if d.post.None? then q == j else Matches(d.post.value, dotAll, mem, p, j)
  }

  /** A literal stands at `p..q`, and both halves match around it: what the validator checks on a literal found. */
  ghost predicate Validated(d: Details, dotAll: bool, mem: bytes, i: nat, p: nat, q: nat, j: nat) {
    && p <= q <= |mem| && mem[p..q] in d.literals
    && PreHolds(d, dotAll, mem, i, p, q)
    && PostHolds(d, dotAll, mem, p, q, j)
  }

  /** The first half matches the leaves before the literals, then the leaves of the literals. */
  lemma PreMatches(ls: seq<Hir>, a: Atoms, d: Details, dotAll: bool, mem: bytes, i: nat, p: nat, q: nat)
    requires Halves(ls, a, d) && MatchesSeq(ls[a.start..a.end], dotAll, mem, p, q)
    ensures PreHolds(d, dotAll, mem, i, p, q) ==> MatchesSeq(ls[..a.start] + ls[a.start..a.end], dotAll, mem, i, q)
    ensures MatchesSeq(ls[..a.start] + ls[a.start..a.end], dotAll, mem, i, q) && (a.start == 0 ==> i == p) ==>
              PreHolds(d, dotAll, mem, i, p, q)
  {
    assert ls[..a.start] + ls[a.start..a.end] == ls[..a.end];
    if d.pre.Some? {
      MatchesLeaves(d.pre.value, dotAll, mem, i, q);
    } else {
      assert ls[..a.end] == ls[a.start..a.end];
    }
  }

  lemma PostMatches(ls: seq<Hir>, a: Atoms, d: Details, dotAll: bool, mem: bytes, p: nat, q: nat, j: nat)
    requires Halves(ls, a, d) && MatchesSeq(ls[a.start..a.end], dotAll, mem, p, q)
    ensures PostHolds(d, dotAll, mem, p, q, j) ==> MatchesSeq(ls[a.start..a.end] + ls[a.end..], dotAll, mem, p, j)
    ensures MatchesSeq(ls[a.start..a.end] + ls[a.end..], dotAll, mem, p, j) && (a.end == |ls| ==> q == j) ==>
              PostHolds(d, dotAll, mem, p, q, j)
  {
    assert ls[a.start..a.end] + ls[a.end..] == ls[a.start..];
    if d.post.Some? {
      MatchesLeaves(d.post.value, dotAll, mem, p, j);
    } else {
      assert ls[a.start..] == ls[a.start..a.end];
    }
  }

  // ----- Completeness -----

  lemma LeavesComplete(ls: seq<Hir>, a: Atoms, d: Details, dotAll: bool, mem: bytes, i: nat, j: nat) returns (p: nat, q: nat)
    requires ValidAtoms(ls, dotAll, a) && Halves(ls, a, d) && MatchesSeq(ls, dotAll, mem, i, j)
    ensures Validated(d, dotAll, mem, i, p, q, j)
    ensures i <= p <= q <= j
  {
    var before, mid, after := ls[..a.start], ls[a.start..a.end], ls[a.end..];
    assert ls == before + (mid + after);
    p := MatchesSeqSplit(before, mid + after, dotAll, mem, i, j);
    q := MatchesSeqSplit(mid, after, dotAll, mem, p, j);
    MatchesSeqBounds(before, dotAll, mem, i, p);
    MatchesSeqBounds(after, dotAll, mem, q, j);
    AtomsMatch(ls, dotAll, a, mem, p, q);
    MatchesSeqJoin(before, mid, dotAll, mem, i, p, q);
    assert a.start == 0 ==> before == [];
    assert a.end == |ls| ==> after == [];
    PreMatches(ls, a, d, dotAll, mem, i, p, q);
    PostMatches(ls, a, d, dotAll, mem, p, q, j);
  }

  /** Around every match of the HIR, a literal is found inside it and validated: nothing is missed. */
  lemma SplitComplete(h: Hir, dotAll: bool, mem: bytes, i: nat, j: nat) returns (p: nat, q: nat)
    requires Extracted(h, dotAll).best.Some? && Matches(h, dotAll, mem, i, j)
    ensures Validated(DetailsOf(h, dotAll), dotAll, mem, i, p, q, j)
    ensures i <= p <= q <= j
  {
    var a := Extracted(h, dotAll).best.value;
    ExtractedValid(h, dotAll);
    SplitHalves(h, a);
    MatchesLeaves(h, dotAll, mem, i, j);
    p, q := LeavesComplete(Leaves(h), a, SplitAt(h, a), dotAll, mem, i, j);
  }

  // ----- Exactness, for the literals of a run -----

  /** A validated literal gives a choice of the leaves of the literals that ends where it ends, and one that starts
      where it starts, with the leaves before and after them. */
  lemma ValidatedChoices(ls: seq<Hir>, a: Atoms, d: Details, dotAll: bool, mem: bytes, i: nat, p: nat, q: nat, j: nat)
    returns (k: nat, m: nat)
    requires ValidAtoms(ls, dotAll, a) && Halves(ls, a, d) && Validated(d, dotAll, mem, i, p, q, j)
    ensures MatchesSeq(ls[..a.start], dotAll, mem, i, k) && k <= q <= |mem| && mem[k..q] in a.literals
    ensures MatchesSeq(ls[a.end..], dotAll, mem, m, j) && p <= m <= |mem| && mem[p..m] in a.literals
  {
    AtomsMatch(ls, dotAll, a, mem, p, q);
    PreMatches(ls, a, d, dotAll, mem, i, p, q);
    PostMatches(ls, a, d, dotAll, mem, p, q, j);
    k := MatchesSeqSplit(ls[..a.start], ls[a.start..a.end], dotAll, mem, i, q);
    m := MatchesSeqSplit(ls[a.start..a.end], ls[a.end..], dotAll, mem, p, j);
    AtomsMatch(ls, dotAll, a, mem, k, q);
    AtomsMatch(ls, dotAll, a, mem, p, m);
  }

  lemma JoinThree(xs: seq<Hir>, ys: seq<Hir>, zs: seq<Hir>, dotAll: bool, mem: bytes, i: nat, k: nat, m: nat, j: nat)
    requires MatchesSeq(xs, dotAll, mem, i, k) && MatchesSeq(ys, dotAll, mem, k, m) && MatchesSeq(zs, dotAll, mem, m, j)
    ensures MatchesSeq(xs + (ys + zs), dotAll, mem, i, j)
  {
    MatchesSeqJoin(ys, zs, dotAll, mem, k, m, j);
    MatchesSeqJoin(xs, ys + zs, dotAll, mem, i, k, j);
  }

  /** The leaves match, if a literal stands between a match of the leaves before and one of the leaves after. */
  lemma AroundLiteral(ls: seq<Hir>, a: Atoms, dotAll: bool, mem: bytes, i: nat, k: nat, m: nat, j: nat)
    requires ValidAtoms(ls, dotAll, a)
    requires MatchesSeq(ls[..a.start], dotAll, mem, i, k) && MatchesSeq(ls[a.end..], dotAll, mem, m, j)
    requires k <= m <= |mem| && mem[k..m] in a.literals
    ensures MatchesSeq(ls, dotAll, mem, i, j)
  {
    AtomsMatch(ls, dotAll, a, mem, k, m);
    JoinThree(ls[..a.start], ls[a.start..a.end], ls[a.end..], dotAll, mem, i, k, m, j);
    assert ls == ls[..a.start] + (ls[a.start..a.end] + ls[a.end..]);
  }

  lemma RunLeavesSound(ls: seq<Hir>, a: Atoms, d: Details, dotAll: bool, mem: bytes, i: nat, p: nat, q: nat, j: nat)
    requires RunAtoms(ls, dotAll, a) && Halves(ls, a, d) && Validated(d, dotAll, mem, i, p, q, j)
    ensures MatchesSeq(ls, dotAll, mem, i, j)
  {
    var k, m := ValidatedChoices(ls, a, d, dotAll, mem, i, p, q, j);
    RunAtomsLength(ls, dotAll, a, mem[k..q], mem[p..q]);
    AroundLiteral(ls, a, dotAll, mem, i, k, m, j);
  }

  /** When the literals come from a run, a validated literal always is inside a match: nothing is added. */
  lemma RunSplitSound(h: Hir, dotAll: bool, mem: bytes, i: nat, p: nat, q: nat, j: nat)
    requires Extracted(h, dotAll).best.Some? && RunAtoms(Leaves(h), dotAll, Extracted(h, dotAll).best.value)
    requires Validated(DetailsOf(h, dotAll), dotAll, mem, i, p, q, j)
    ensures Matches(h, dotAll, mem, i, j)
  {
    var a := Extracted(h, dotAll).best.value;
    SplitHalves(h, a);
    RunLeavesSound(Leaves(h), a, SplitAt(h, a), dotAll, mem, i, p, q, j);
    MatchesLeaves(h, dotAll, mem, i, j);
  }

  /** Exact characterisation for runs: the matches are the spans around validated literals. */
  lemma RunSplitExact(h: Hir, dotAll: bool, mem: bytes, i: nat, j: nat)
    requires Extracted(h, dotAll).best.Some? && RunAtoms(Leaves(h), dotAll, Extracted(h, dotAll).best.value)
    ensures Matches(h, dotAll, mem, i, j) <==> exists p: nat, q: nat :: Validated(DetailsOf(h, dotAll), dotAll, mem, i, p, q, j)
  {
    if Matches(h, dotAll, mem, i, j) { var p, q := SplitComplete(h, dotAll, mem, i, j); }
    if p: nat, q: nat :| Validated(DetailsOf(h, dotAll), dotAll, mem, i, p, q, j) {
      RunSplitSound(h, dotAll, mem, i, p, q, j);
    }
  }
}
