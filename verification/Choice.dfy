/** Which atoms of a HIR are chosen (`matcher/literals.rs`): the best of all that its leaves offer. */
module Choice {
  import opened Base
  import opened Hir
  import opened Atoms
  import opened Literals
  import opened Split

  // ----- What the leaves offer -----

  predicate RunLeaf(h: Hir) {
    OneByte(h) || h.Empty?
  }

  /** The leaves from `from` to `to` are the longest run there. */
  predicate MaximalRun(ls: seq<Hir>, from: nat, to: nat) {
    && from < to <= |ls|
    && (forall k :: from <= k < to ==> RunLeaf(ls[k]))
    && (from > 0 ==> !RunLeaf(ls[from - 1]))
    && (to < |ls| ==> !RunLeaf(ls[to]))
  }

  /** A branch that is a literal: a byte, or a concatenation of bytes. */
  predicate LiteralBranch(h: Hir) {
    h.Literal? || (h.Concat? && forall k :: 0 <= k < |h.hirs| ==> h.hirs[k].Literal?)
  }

  function BytesOfBranch(h: Hir): bytes
    requires LiteralBranch(h)
  {
    match h
    case Literal(b) => [b]
    case Concat(hs) => seq<byte>(|hs|, k requires 0 <= k < |hs| => hs[k].b)
  }

  /** Some atoms, and the leaves that they are offered for: a window of a run, or an alternation. Literals around the
      window are in the atoms, too. */
  datatype Candidate = Candidate(start: nat, end: nat, atoms: Atoms)

  /** A window of the parts that may be chosen. */
  ghost predicate OfWindow(parts: seq<Part>, i: nat, j: nat, c: Candidate) {
    && IsWindow(parts, i, j)
    && PartsRank(parts[i..j]) == Some(c.atoms.rank)
    && c.start == parts[i].start && c.end == parts[j - 1].start + 1
    && c.atoms == AtomsOfWindow(parts, Window(i, j, c.atoms.rank))
  }

  ghost predicate InRun(ls: seq<Hir>, dotAll: bool, c: Candidate, from: nat, to: nat) {
    && MaximalRun(ls, from, to)
    && exists i: nat, j: nat :: OfWindow(PartsOf(ls[from..to], dotAll, from), i, j, c)
  }

  ghost predicate OfAlternation(ls: seq<Hir>, c: Candidate) {
    && c.start < |ls| && c.end == c.start + 1
    && ls[c.start].Alternation?
    && (forall k :: 0 <= k < |ls[c.start].alts| ==> LiteralBranch(ls[c.start].alts[k]))
    && c.atoms == AtomsOfAlternation(ls[c.start].alts, c.start)
  }

  function AtomsOfAlternation(alts: seq<Hir>, position: nat): Atoms
    requires forall k :: 0 <= k < |alts| ==> LiteralBranch(alts[k])
  {
    var literals := seq<bytes>(|alts|, k requires 0 <= k < |alts| => BytesOfBranch(alts[k]));
    Atoms(position, position + 1, literals, AtomsRank(literals))
  }

  /** Every admissible window of every maximal run, and every alternation of literals. */
  ghost predicate Offered(ls: seq<Hir>, dotAll: bool, c: Candidate) {
    (exists from: nat, to: nat :: InRun(ls, dotAll, c, from, to)) || OfAlternation(ls, c)
  }

  /** A better rank; of equal ranks, what starts first, then what ends first. */
  predicate Preferred(c: Candidate, d: Candidate) {
    c.atoms.rank > d.atoms.rank
    || (c.atoms.rank == d.atoms.rank && (c.start < d.start || (c.start == d.start && c.end <= d.end)))
  }

  ghost predicate Best(ls: seq<Hir>, dotAll: bool, c: Candidate) {
    Offered(ls, dotAll, c) && forall d :: Offered(ls, dotAll, d) ==> Preferred(c, d)
  }

  // ----- Literal branches -----

  lemma {:induction false} LiteralBytesAre(hs: seq<Hir>)
    ensures LiteralBytes(hs).Some? <==> forall k :: 0 <= k < |hs| ==> hs[k].Literal?
    ensures LiteralBytes(hs).Some? ==> LiteralBytes(hs).value == seq<byte>(|hs|, k requires 0 <= k < |hs| => hs[k].b)
    decreases |hs|
  {
    if hs != [] { LiteralBytesAre(hs[1..]); }
  }

  lemma BranchLiteralIs(h: Hir)
    ensures BranchLiteral(h).Some? <==> LiteralBranch(h)
    ensures LiteralBranch(h) ==> BranchLiteral(h).value == BytesOfBranch(h)
  {
    if h.Concat? { LiteralBytesAre(h.hirs); }
  }

  lemma {:induction false} BranchLiteralsAre(alts: seq<Hir>)
    ensures BranchLiterals(alts).Some? <==> forall k :: 0 <= k < |alts| ==> LiteralBranch(alts[k])
    ensures BranchLiterals(alts).Some? ==>
              && |BranchLiterals(alts).value| == |alts|
              && forall k :: 0 <= k < |alts| ==> BranchLiterals(alts).value[k] == BytesOfBranch(alts[k])
    decreases |alts|
  {
    if alts != [] {
      BranchLiteralIs(alts[0]);
      BranchLiteralsAre(alts[1..]);
      hide LiteralBranch, BytesOfBranch;
      assert forall k :: 0 < k < |alts| ==> alts[k] == alts[1..][k - 1];
    }
  }

  lemma AlternationOffers(ls: seq<Hir>, p: nat)
    requires p < |ls| && ls[p].Alternation?
    ensures var lits := BranchLiterals(ls[p].alts);
            if lits.Some? then OfAlternation(ls, Candidate(p, p + 1, Atoms(p, p + 1, lits.value, AtomsRank(lits.value))))
            else forall c :: OfAlternation(ls, c) ==> c.start != p
  {
    hide LiteralBranch, BytesOfBranch;
    var alts := ls[p].alts;
    BranchLiteralsAre(alts);
    if BranchLiterals(alts).Some? { assert AtomsOfAlternation(alts, p).literals == BranchLiterals(alts).value; }
  }

  lemma OneOffer(ls: seq<Hir>, c: Candidate, p: nat)
    requires OfAlternation(ls, c) && c.start == p
    ensures BranchLiterals(ls[p].alts).Some?
    ensures var lits := BranchLiterals(ls[p].alts).value; c == Candidate(p, p + 1, Atoms(p, p + 1, lits, AtomsRank(lits)))
  {
    hide LiteralBranch, BytesOfBranch;
    BranchLiteralsAre(ls[p].alts);
    assert AtomsOfAlternation(ls[p].alts, p).literals == BranchLiterals(ls[p].alts).value;
  }

  // ----- Where candidates stand -----

  /** The parts come from different leaves, in order. */
  predicate InOrder(parts: seq<Part>, from: nat, to: nat) {
    && (forall i :: 0 <= i < |parts| ==> from <= parts[i].start < to)
    && (forall i, j :: 0 <= i < j < |parts| ==> parts[i].start < parts[j].start)
  }

  lemma InOrderCons(first: Part, rest: seq<Part>, from: nat, to: nat)
    requires InOrder(rest, from + 1, to) && from < to
    ensures InOrder(rest, from, to)
    ensures first.start == from ==> InOrder([first] + rest, from, to)
  {
    var parts := [first] + rest;
    assert forall i :: 0 < i < |parts| ==> parts[i] == rest[i - 1];
  }

  lemma {:induction false} PartsPlaces(ls: seq<Hir>, dotAll: bool, position: nat)
    ensures InOrder(PartsOf(ls, dotAll, position), position, position + |ls|)
    decreases |ls|
  {
    if ls != [] {
      PartsPlaces(ls[1..], dotAll, position + 1);
      PartsCons(ls, dotAll, position);
      hide PartsOf, PartOf, OneByte, InOrder;
      var rest := PartsOf(ls[1..], dotAll, position + 1);
      if OneByte(ls[0]) {
        InOrderCons(PartOf(ls[0], dotAll, position), rest, position, position + |ls|);
      } else {
        InOrderCons(Part(0, Byte(0)), rest, position, position + |ls|);
      }
    }
  }

  /** A candidate of a run stays inside it. */
  lemma InRunInside(ls: seq<Hir>, dotAll: bool, c: Candidate, from: nat, to: nat)
    requires InRun(ls, dotAll, c, from, to)
    ensures from <= c.start < c.end <= to
  {
    hide PartsOf, PartsRank, AtomsOfWindow;
    var parts := PartsOf(ls[from..to], dotAll, from);
    PartsPlaces(ls[from..to], dotAll, from);
    var i: nat, j: nat :| OfWindow(parts, i, j, c);
    assert i < j - 1 ==> parts[i].start < parts[j - 1].start;
  }

  lemma SameRun(ls: seq<Hir>, from: nat, to: nat, from': nat, to': nat, k: nat)
    requires MaximalRun(ls, from, to) && MaximalRun(ls, from', to') && from <= k < to && from' <= k < to'
    ensures from == from' && to == to'
  {
    hide RunLeaf;
  }

  // ----- The fold keeps the best so far -----

  /** `best` holds the best of the candidates that end at `to` or before. */
  ghost predicate BestUpTo(ls: seq<Hir>, dotAll: bool, best: Option<Atoms>, to: nat) {
    if best.None? then forall d :: Offered(ls, dotAll, d) ==> d.end > to
    else exists c :: IsBestUpTo(ls, dotAll, c, to) && c.atoms == best.value
  }

  ghost predicate IsBestUpTo(ls: seq<Hir>, dotAll: bool, c: Candidate, to: nat) {
    && Offered(ls, dotAll, c) && c.end <= to
    && forall d :: Offered(ls, dotAll, d) && d.end <= to ==> Preferred(c, d)
  }

  /** The run open at the position of `s` started at `from`; what was offered before it is settled. */
  ghost predicate Choosing(ls: seq<Hir>, dotAll: bool, s: Extraction, from: nat) {
    && from <= s.position <= |ls|
    && (forall k :: from <= k < s.position ==> RunLeaf(ls[k]))
    && (from > 0 ==> !RunLeaf(ls[from - 1]))
    && s.run == PartsOf(ls[from..s.position], dotAll, from)
    && BestUpTo(ls, dotAll, s.best, from)
  }

  /** Trying the preferred of the candidates that end in a stretch, or nothing when there is none. */
  lemma Tries(ls: seq<Hir>, dotAll: bool, s: Extraction, from: nat, to: nat, c: Candidate)
    requires from <= to && BestUpTo(ls, dotAll, s.best, from)
    requires Offered(ls, dotAll, c) && from <= c.start && c.end <= to
    requires forall d :: Offered(ls, dotAll, d) && from < d.end <= to ==> Preferred(c, d)
    requires forall d :: Offered(ls, dotAll, d) ==> d.start < d.end
    ensures BestUpTo(ls, dotAll, TryAtoms(s, c.atoms).best, to)
  {
    hide Offered;
    if s.best.None? {
      assert IsBestUpTo(ls, dotAll, c, to);
    } else {
      var b :| IsBestUpTo(ls, dotAll, b, from) && b.atoms == s.best.value;
      if b.atoms.rank < c.atoms.rank {
        forall d | Offered(ls, dotAll, d) && d.end <= to ensures Preferred(c, d) {
          if d.end <= from { assert Preferred(b, d); }
        }
        assert IsBestUpTo(ls, dotAll, c, to);
      } else {
        forall d | Offered(ls, dotAll, d) && d.end <= to ensures Preferred(b, d) {
          if d.end > from { assert Preferred(c, d); }
        }
        assert IsBestUpTo(ls, dotAll, b, to);
      }
    }
  }

  lemma NothingNew(ls: seq<Hir>, dotAll: bool, best: Option<Atoms>, from: nat, to: nat)
    requires from <= to && BestUpTo(ls, dotAll, best, from)
    requires forall d :: Offered(ls, dotAll, d) ==> !(from < d.end <= to)
    ensures BestUpTo(ls, dotAll, best, to)
  {
    hide Offered;
    if best.Some? {
      var b :| IsBestUpTo(ls, dotAll, b, from) && b.atoms == best.value;
      assert IsBestUpTo(ls, dotAll, b, to);
    }
  }

  lemma OfferedInside(ls: seq<Hir>, dotAll: bool, d: Candidate)
    requires Offered(ls, dotAll, d)
    ensures d.start < d.end <= |ls|
  {
    if !OfAlternation(ls, d) {
      var from: nat, to: nat :| InRun(ls, dotAll, d, from, to);
      InRunInside(ls, dotAll, d, from, to);
    }
  }

  /** What ends inside a maximal run is one of its windows. */
  lemma EndsInRun(ls: seq<Hir>, dotAll: bool, d: Candidate, from: nat, to: nat)
    requires Offered(ls, dotAll, d) && MaximalRun(ls, from, to) && from < d.end <= to
    ensures InRun(ls, dotAll, d, from, to)
  {
    assert RunLeaf(ls[d.end - 1]);
    assert !OfAlternation(ls, d);
    var from': nat, to': nat :| InRun(ls, dotAll, d, from', to');
    InRunInside(ls, dotAll, d, from', to');
    SameRun(ls, from, to, from', to', d.end - 1);
  }

  /** The window that `run_into_atoms` takes is preferred among those of its run. */
  lemma WindowChosen(parts: seq<Part>, from: nat, to: nat) returns (c: Option<Candidate>)
    requires InOrder(parts, from, to)
    ensures var atoms := RunIntoAtoms(parts); (atoms.None? <==> c.None?) && (c.Some? ==> c.value.atoms == atoms.value)
    ensures c.None? ==> forall i: nat, j: nat, d :: !OfWindow(parts, i, j, d)
    ensures c.Some? ==> exists i: nat, j: nat :: OfWindow(parts, i, j, c.value)
    ensures c.Some? ==> forall i: nat, j: nat, d :: OfWindow(parts, i, j, d) ==> Preferred(c.value, d)
  {
    hide PartsRank, AtomsOfWindow, RunIntoAtoms, Admissible, CombinationsOf, InOrder;
    RunAtomsOptimal(parts);
    if RunIntoAtoms(parts).None? {
      c := None;
      forall i: nat, j: nat, d ensures !OfWindow(parts, i, j, d) {
        if OfWindow(parts, i, j, d) { RankedIsAdmissible(parts[i..j]); }
      }
    } else {
      var w := BestOfRun(parts);
      RankOfWindow(parts, w);
      var best := Candidate(parts[w.i].start, parts[w.j - 1].start + 1, RunIntoAtoms(parts).value);
      assert OfWindow(parts, w.i, w.j, best);
      forall i: nat, j: nat, d | OfWindow(parts, i, j, d) ensures Preferred(best, d) {
        var v := Window(i, j, d.atoms.rank);
        assert Ranked(PartsRank, parts, v);
        WindowsInOrder(parts, from, to, w, v);
      }
      c := Some(best);
    }
  }

  lemma BestOfRun(parts: seq<Part>) returns (w: Window)
    requires RunIntoAtoms(parts).Some?
    ensures Ranked(PartsRank, parts, w) && RunIntoAtoms(parts).value == AtomsOfWindow(parts, w)
    ensures forall v: Window :: Ranked(PartsRank, parts, v) ==> PrefersWindow(w, v)
  {
    hide PartsRank, AtomsOfWindow, RunIntoAtoms, PrefersWindow;
    RunAtomsOptimal(parts);
    w :| && Ranked(PartsRank, parts, w) && RunIntoAtoms(parts).value == AtomsOfWindow(parts, w)
         && forall v: Window :: Ranked(PartsRank, parts, v) ==> PrefersWindow(w, v);
  }

  lemma RunChooses(ls: seq<Hir>, dotAll: bool, from: nat, to: nat) returns (c: Option<Candidate>)
    requires MaximalRun(ls, from, to)
    ensures var atoms := RunIntoAtoms(PartsOf(ls[from..to], dotAll, from));
            && (atoms.None? <==> c.None?) && (c.Some? ==> c.value.atoms == atoms.value)
    ensures c.None? ==> forall d :: !InRun(ls, dotAll, d, from, to)
    ensures c.Some? ==> InRun(ls, dotAll, c.value, from, to) && forall d :: InRun(ls, dotAll, d, from, to) ==> Preferred(c.value, d)
  {
    hide OfWindow, PartsOf, RunIntoAtoms, InOrder, Preferred;
    PartsPlaces(ls[from..to], dotAll, from);
    c := WindowChosen(PartsOf(ls[from..to], dotAll, from), from, to);
  }

  lemma RankedIsAdmissible(parts: seq<Part>)
    ensures PartsRank(parts).Some? <==> Admissible(parts)
  {
  }

  lemma RankOfWindow(parts: seq<Part>, w: Window)
    requires IsWindow(parts, w.i, w.j)
    ensures AtomsOfWindow(parts, w).rank == w.rank
  {
  }

  lemma WindowsInOrder(parts: seq<Part>, from: nat, to: nat, w: Window, v: Window)
    requires IsWindow(parts, w.i, w.j) && IsWindow(parts, v.i, v.j)
    requires InOrder(parts, from, to)
    ensures w.i < v.i ==> parts[w.i].start < parts[v.i].start
    ensures w.j <= v.j ==> parts[w.j - 1].start <= parts[v.j - 1].start
  {
    if w.j < v.j { assert parts[w.j - 1].start < parts[v.j - 1].start; }
  }

  /** A run that ends is settled. */
  lemma CloseChooses(ls: seq<Hir>, dotAll: bool, s: Extraction, from: nat)
    requires Choosing(ls, dotAll, s, from) && (s.position < |ls| ==> !RunLeaf(ls[s.position]))
    ensures BestUpTo(ls, dotAll, CloseRun(s).best, s.position) && CloseRun(s).position == s.position && CloseRun(s).run == []
  {
    hide PartsOf, RunIntoAtoms, InRun, OfAlternation, BestUpTo, Preferred;
    var to := s.position;
    forall d | Offered(ls, dotAll, d) ensures d.start < d.end { OfferedInside(ls, dotAll, d); }
    if from < to {
      var c := RunChooses(ls, dotAll, from, to);
      forall d | Offered(ls, dotAll, d) && from < d.end <= to ensures InRun(ls, dotAll, d, from, to) {
        EndsInRun(ls, dotAll, d, from, to);
      }
      if s.run == [] { NoPartsNoAtoms(); }
      if c.Some? {
        InRunInside(ls, dotAll, c.value, from, to);
        Tries(ls, dotAll, s, from, to, c.value);
      } else {
        NothingNew(ls, dotAll, s.best, from, to);
      }
    } else {
      PartsNil(dotAll, from);
      assert ls[from..to] == [];
    }
  }

  lemma NoPartsNoAtoms()
    ensures RunIntoAtoms([]).None?
  {
  }

  /** One more leaf. */
  lemma LeafChooses(ls: seq<Hir>, dotAll: bool, s: Extraction, from: nat) returns (next: nat)
    requires Choosing(ls, dotAll, s, from) && s.position < |ls| && IsLeaf(ls[s.position])
    ensures FoldLeaf(dotAll, s, ls[s.position]).position == s.position + 1
    ensures Choosing(ls, dotAll, FoldLeaf(dotAll, s, ls[s.position]), next)
  {
    hide FoldLeaf, CloseRun, PartsOf, BestUpTo, RunLeaf, IsLeaf, VisitBranches;
    var p, h := s.position, ls[s.position];
    if RunLeaf(h) {
      next := from;
      RunContinues(ls, dotAll, s, from);
    } else {
      CloseChooses(ls, dotAll, s, from);
      next := p + 1;
      BreakChooses(ls, dotAll, CloseRun(s));
      assert ls[next..next] == [];
      PartsNil(dotAll, next);
      FoldBreak(dotAll, s, h);
    }
  }

  lemma FoldBreak(dotAll: bool, s: Extraction, h: Hir)
    requires IsLeaf(h) && !RunLeaf(h)
    ensures var tried := if h.Alternation? then VisitBranches(CloseRun(s), h.alts) else CloseRun(s);
            FoldLeaf(dotAll, s, h) == tried.(position := tried.position + 1)
            && tried.position == s.position && tried.run == []
  {
  }

  lemma RunContinues(ls: seq<Hir>, dotAll: bool, s: Extraction, from: nat)
    requires Choosing(ls, dotAll, s, from) && s.position < |ls| && RunLeaf(ls[s.position])
    ensures var t := FoldLeaf(dotAll, s, ls[s.position]); t.position == s.position + 1 && Choosing(ls, dotAll, t, from)
  {
    hide BestUpTo;
    var h, run := ls[s.position], ls[from..s.position];
    assert ls[from..s.position + 1] == run + [h];
    PartsSnoc(run, h, dotAll, from);
  }

  /** The leaf that ends a run is settled, too. */
  lemma BreakChooses(ls: seq<Hir>, dotAll: bool, s: Extraction)
    requires s.position < |ls| && IsLeaf(ls[s.position]) && !RunLeaf(ls[s.position]) && BestUpTo(ls, dotAll, s.best, s.position)
    ensures var h := ls[s.position];
            BestUpTo(ls, dotAll, (if h.Alternation? then VisitBranches(s, h.alts) else s).best, s.position + 1)
  {
    hide BestUpTo, Preferred, InRun, AtomsRank;
    var p, h := s.position, ls[s.position];
    forall d | Offered(ls, dotAll, d) ensures d.start < d.end { OfferedInside(ls, dotAll, d); }
    forall d | Offered(ls, dotAll, d) && d.end == p + 1 ensures OfAlternation(ls, d) {
      if !OfAlternation(ls, d) {
        var from: nat, to: nat :| InRun(ls, dotAll, d, from, to);
        RunEnds(ls, dotAll, d, from, to);
      }
    }
    if h.Alternation? {
      AlternationOffers(ls, p);
      var lits := BranchLiterals(h.alts);
      if lits.Some? {
        var c := Candidate(p, p + 1, Atoms(p, p + 1, lits.value, AtomsRank(lits.value)));
        forall d | Offered(ls, dotAll, d) && p < d.end <= p + 1 ensures Preferred(c, d) {
          OneOffer(ls, d, p);
          PreferredItself(c);
        }
        Tries(ls, dotAll, s, p, p + 1, c);
        return;
      }
    }
    NothingNew(ls, dotAll, s.best, p, p + 1);
  }

  lemma PreferredItself(c: Candidate)
    ensures Preferred(c, c)
  {
  }

  lemma RunEnds(ls: seq<Hir>, dotAll: bool, d: Candidate, from: nat, to: nat)
    requires InRun(ls, dotAll, d, from, to)
    ensures 0 < d.end <= |ls| && RunLeaf(ls[d.end - 1])
  {
    InRunInside(ls, dotAll, d, from, to);
  }

  lemma {:induction false} FoldChooses(ls: seq<Hir>, dotAll: bool, s: Extraction, from: nat) returns (next: nat)
    requires Choosing(ls, dotAll, s, from)
    requires forall k :: 0 <= k < |ls| ==> IsLeaf(ls[k])
    ensures Choosing(ls, dotAll, FoldLeaves(dotAll, ls[s.position..], s), next)
    ensures FoldLeaves(dotAll, ls[s.position..], s).position == |ls|
    decreases |ls| - s.position
  {
    hide Choosing, FoldLeaf, IsLeaf;
    ChoosingInside(ls, dotAll, s, from);
    if s.position == |ls| {
      next := from;
    } else {
      next := LeafChooses(ls, dotAll, s, from);
      assert ls[s.position..][1..] == ls[s.position + 1..];
      next := FoldChooses(ls, dotAll, FoldLeaf(dotAll, s, ls[s.position]), next);
    }
  }

  lemma ChoosingInside(ls: seq<Hir>, dotAll: bool, s: Extraction, from: nat)
    requires Choosing(ls, dotAll, s, from)
    ensures from <= s.position <= |ls|
  {
  }

  // ----- The choice -----

  /** The atoms extracted are the best of all that the leaves of the HIR offer, and there are none only when the leaves offer
      nothing. */
  lemma ExtractedIsBest(h: Hir, dotAll: bool, ls: seq<Hir>)
    requires ls == Leaves(h)
    ensures var best := Extracted(h, dotAll).best;
            if best.None? then forall c :: !Offered(ls, dotAll, c) else exists c :: Best(ls, dotAll, c) && c.atoms == best.value
  {
    LeavesAreLeaves(h);
    hide Offered, Leaves, FoldLeaves, IsLeaf, CloseRun;
    assert ls[0..0] == [] && ls[0..] == ls;
    PartsNil(dotAll, 0);
    forall d | Offered(ls, dotAll, d) ensures d.end > 0 { OfferedInside(ls, dotAll, d); }
    assert BestUpTo(ls, dotAll, None, 0);
    assert Choosing(ls, dotAll, BEGIN, 0);
    var from := FoldChooses(ls, dotAll, BEGIN, 0);
    var s := FoldLeaves(dotAll, ls, BEGIN);
    CloseChooses(ls, dotAll, s, from);
    forall d | Offered(ls, dotAll, d) ensures d.end <= |ls| { OfferedInside(ls, dotAll, d); }
    var best := CloseRun(s).best;
    if best.Some? {
      var c :| IsBestUpTo(ls, dotAll, c, |ls|) && c.atoms == best.value;
      assert Best(ls, dotAll, c);
    }
  }

  /** The literals and the halves of `get_literals_details`, by what the leaves offer. */
  lemma DetailsAreBest(h: Hir, dotAll: bool, ls: seq<Hir>)
    requires ls == Leaves(h)
    ensures (forall c :: !Offered(ls, dotAll, c)) ==> DetailsOf(h, dotAll) == Details([], None, None)
    ensures (exists c :: Offered(ls, dotAll, c)) ==>
              exists c :: Best(ls, dotAll, c) && DetailsOf(h, dotAll) == SplitAt(h, c.atoms)
  {
    hide Extracted, SplitAt, Offered;
    ExtractedIsBest(h, dotAll, ls);
    var best := Extracted(h, dotAll).best;
    if best.Some? {
      var c :| Best(ls, dotAll, c) && c.atoms == best.value;
      assert DetailsOf(h, dotAll) == SplitAt(h, c.atoms);
    }
  }
}
