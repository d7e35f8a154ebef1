/** The choice of literals in a HIR, and the split of the HIR around them (`matcher/literals.rs`). */
module Literals {
  import opened Base
  import opened Hir
  import opened Visitor
  import opened Bitmaps
  import opened Words
  import opened Atoms

  // ----- The extraction of literals -----

  /** `current_position` counts the leaves left; `current_run` holds the parts of the run being built. */
  datatype Extraction = Extraction(best: Option<Atoms>, run: seq<Part>, position: nat)

  const ALL_BYTES: set<byte> := set b: byte | true

  /** The part that a one-byte node adds to a run. */
  function PartOf(h: Hir, dotAll: bool, position: nat): Part
    requires OneByte(h)
  {
    Part(position, match h
                   case Literal(b) => Byte(b)
                   case Class(bitmap) => Set(bitmap)
                   case Mask(value, mask, negated) =>
                     var bitmap := if mask == 0x0F then set c: byte | c % 16 == value else set c: byte | c - c % 16 == value;
                     Set(if negated then ALL_BYTES - bitmap else bitmap)
                   case _ => Set(if dotAll then ALL_BYTES else ALL_BYTES - {10}))
  }

  function TryAtoms(s: Extraction, atoms: Atoms): Extraction {
    if s.best.None? || s.best.value.rank < atoms.rank then s.(best := Some(atoms)) else s
  }

  function CloseRun(s: Extraction): Extraction {
    if s.run == [] then s
    else
      var atoms := RunIntoAtoms(s.run);
      (if atoms.Some? then TryAtoms(s, atoms.value) else s).(run := [])
  }

  /** The bytes of a list of literal nodes, if they are all literals. */
  function LiteralBytes(hs: seq<Hir>): Option<bytes> {
    if hs == [] then Some([])
    else
      var rest := LiteralBytes(hs[1..]);
      if hs[0].Literal? && rest.Some? then Some([hs[0].b] + rest.value) else None
  }

  function BranchLiteral(h: Hir): Option<bytes> {
    match h
    case Literal(b) => Some([b])
    case Concat(hs) => LiteralBytes(hs)
    case _ => None
  }

  /** The literals of an alternation, if each branch is a literal or a concatenation of literals. */
  function BranchLiterals(alts: seq<Hir>): Option<seq<bytes>> {
    if alts == [] then Some([])
    else
      var first := BranchLiteral(alts[0]);
      var rest := BranchLiterals(alts[1..]);
      if first.Some? && rest.Some? then Some([first.value] + rest.value) else None
  }

  /** The items collected so far in front of the others, if there are any others. */
  function Prepend<T>(xs: seq<T>, rest: Option<seq<T>>): Option<seq<T>> {
    if rest.Some? then Some(xs + rest.value) else None
  }

  lemma PrependNothing<T>(rest: Option<seq<T>>)
    ensures Prepend([], rest) == rest
  {
    if rest.Some? { assert [] + rest.value == rest.value; }
  }

  lemma AppendNothing<T>(xs: seq<T>)
    ensures Prepend(xs, Some([])) == Some(xs)
  {
    assert xs + [] == xs;
  }

  lemma NextByte(lit: bytes, nodes: seq<Hir>, n: nat)
    requires n < |nodes|
    ensures Prepend(lit, LiteralBytes(nodes[n..]))
         == if nodes[n].Literal? then Prepend(lit + [nodes[n].b], LiteralBytes(nodes[n + 1..])) else None
  {
    var rest := LiteralBytes(nodes[n + 1..]);
    assert nodes[n..][0] == nodes[n] && nodes[n..][1..] == nodes[n + 1..];
    if nodes[n].Literal? && rest.Some? { assert lit + ([nodes[n].b] + rest.value) == (lit + [nodes[n].b]) + rest.value; }
  }

  lemma NextBranch(literals: seq<bytes>, alts: seq<Hir>, k: nat)
    requires k < |alts|
    ensures Prepend(literals, BranchLiterals(alts[k..]))
         == var first := BranchLiteral(alts[k]);
            if first.Some? then Prepend(literals + [first.value], BranchLiterals(alts[k + 1..])) else None
  {
    var first, rest := BranchLiteral(alts[k]), BranchLiterals(alts[k + 1..]);
    assert alts[k..][0] == alts[k] && alts[k..][1..] == alts[k + 1..];
    if first.Some? && rest.Some? {
      assert literals + ([first.value] + rest.value) == (literals + [first.value]) + rest.value;
    }
  }

  function VisitBranches(s: Extraction, alts: seq<Hir>): Extraction {
    var literals := BranchLiterals(alts);
    if literals.None? then s
    else TryAtoms(s, Atoms(s.position, s.position + 1, literals.value, AtomsRank(literals.value)))
  }

  function Pre(dotAll: bool, s: Extraction, h: Hir): (Extraction, Action) {
    if OneByte(h) then (s.(run := s.run + [PartOf(h, dotAll, s.position)]), Skip)
    else
      match h
      case Empty => (s, Skip)
      case Assertion(_) => (CloseRun(s), Skip)
      case Repetition(_, _, _) => (CloseRun(s), Skip)
      case Alternation(alts) => (VisitBranches(CloseRun(s), alts), Skip)
      case _ => (s, Continue)
  }

  function Post(s: Extraction, h: Hir): Extraction {
    if h.Group? || h.Concat? then s else s.(position := s.position + 1)
  }

  function ExtractorVisitor(dotAll: bool): Visitor<Extraction> {
    Visitor((s: Extraction, h: Hir) => Pre(dotAll, s, h), (s: Extraction) => s, (s: Extraction, h: Hir) => Post(s, h))
  }

  // ----- The same visitor, updating its fields in place -----

  class Extractor {
    var bestAtoms: Option<Atoms>
    var currentRun: seq<Part>
    var currentPosition: nat
    const dotAll: bool

    ghost function View(): Extraction
      reads this
    {
      Extraction(bestAtoms, currentRun, currentPosition)
    }

    constructor (dotAll: bool)
      ensures this.dotAll == dotAll && View() == BEGIN
    {
      this.dotAll := dotAll;
      bestAtoms, currentRun, currentPosition := None, [], 0;
    }

    method AddPart(kind: PartKind)
      modifies this`currentRun
      ensures View() == old(View()).(run := old(currentRun) + [Part(currentPosition, kind)])
    {
      currentRun := currentRun + [Part(currentPosition, kind)];
    }

    /** The literals of the branches, if they all are literals or concatenations of literals. */
    method VisitAlternation(alts: seq<Hir>)
      modifies this
      ensures View() == VisitBranches(old(View()), alts)
    {
      var literals: seq<bytes> := [];
      PrependNothing(BranchLiterals(alts));
      assert alts[0..] == alts;
      for k := 0 to |alts|
        invariant View() == old(View())
        invariant BranchLiterals(alts) == Prepend(literals, BranchLiterals(alts[k..]))
      {
        NextBranch(literals, alts, k);
        match alts[k] {
          case Literal(b) => literals := literals + [[b]];
          case Concat(nodes) =>
            var lit: bytes := [];
            PrependNothing(LiteralBytes(nodes));
            assert nodes[0..] == nodes;
            for n := 0 to |nodes|
              invariant View() == old(View())
              invariant LiteralBytes(nodes) == Prepend(lit, LiteralBytes(nodes[n..]))
            {
              NextByte(lit, nodes, n);
              if !nodes[n].Literal? {
                return;
              }
              lit := lit + [nodes[n].b];
            }
            AppendNothing(lit);
            literals := literals + [lit];
          case _ => return;
        }
      }
      AppendNothing(literals);
      var rank := AtomsRank(literals);
      TryAtomsInPlace(Atoms(currentPosition, currentPosition + 1, literals, rank));
    }

    method TryAtomsInPlace(atoms: Atoms)
      modifies this`bestAtoms
      ensures View() == TryAtoms(old(View()), atoms)
    {
      match bestAtoms {
        case Some(v) =>
          if v.rank < atoms.rank {
            bestAtoms := Some(atoms);
          }
        case None => bestAtoms := Some(atoms);
      }
    }

    method CloseRunInPlace()
      modifies this`bestAtoms, this`currentRun
      ensures View() == CloseRun(old(View()))
    {
      if currentRun != [] {
        var atoms := ComputeRunIntoAtoms(currentRun);
        if atoms.Some? {
          TryAtomsInPlace(atoms.value);
        }
        currentRun := [];
      }
    }

    method VisitPre(h: Hir) returns (action: Action)
      modifies this
      ensures (View(), action) == Pre(dotAll, old(View()), h)
    {
      match h {
        case Empty => return Skip;
        case Assertion(_) =>
          CloseRunInPlace();
          return Skip;
        case Repetition(_, _, _) =>
          CloseRunInPlace();
          return Skip;
        case Alternation(alts) =>
          CloseRunInPlace();
          VisitAlternation(alts);
          return Skip;
        case Group(_) => return Continue;
        case Concat(_) => return Continue;
        case _ =>
          AddPart(PartOf(h, dotAll, currentPosition).kind);
          return Skip;
      }
    }

    method VisitPost(h: Hir)
      modifies this`currentPosition
      ensures View() == Post(old(View()), h)
    {
      if !h.Group? && !h.Concat? {
        currentPosition := currentPosition + 1;
      }
    }
  }

  // ----- The visit is a fold over the leaves -----

  function FoldLeaf(dotAll: bool, s: Extraction, h: Hir): Extraction {
    Post(Pre(dotAll, s, h).0, h)
  }

  function FoldLeaves(dotAll: bool, ls: seq<Hir>, s: Extraction): Extraction {
    if ls == [] then s else FoldLeaves(dotAll, ls[1..], FoldLeaf(dotAll, s, ls[0]))
  }

  lemma {:induction false} FoldAppend(dotAll: bool, xs: seq<Hir>, ys: seq<Hir>, s: Extraction)
    ensures FoldLeaves(dotAll, xs + ys, s) == FoldLeaves(dotAll, ys, FoldLeaves(dotAll, xs, s))
    decreases |xs|
  {
    if xs == [] {
      assert xs + ys == ys;
    } else {
      assert (xs + ys)[0] == xs[0] && (xs + ys)[1..] == xs[1..] + ys;
      FoldAppend(dotAll, xs[1..], ys, FoldLeaf(dotAll, s, xs[0]));
    }
  }

  lemma {:induction false} WalkIsFold(dotAll: bool, h: Hir, s: Extraction)
    ensures Walk(ExtractorVisitor(dotAll), h, s) == FoldLeaves(dotAll, Leaves(h), s)
    decreases h, 1
  {
    match h
    case Group(g) =>
      WalkOne(ExtractorVisitor(dotAll), g, false, s);
      WalkIsFold(dotAll, g, s);
    case Concat(hs) => WalkAllIsFold(dotAll, hs, s);
    case _ => assert [h][1..] == [];
  }

  lemma {:induction false} WalkAllIsFold(dotAll: bool, hs: seq<Hir>, s: Extraction)
    ensures WalkMore(ExtractorVisitor(dotAll), hs, false, s) == FoldLeaves(dotAll, LeavesSeq(hs), s)
    ensures WalkAll(ExtractorVisitor(dotAll), hs, false, s) == FoldLeaves(dotAll, LeavesSeq(hs), s)
    decreases hs, 0
  {
    if hs != [] {
      WalkIsFold(dotAll, hs[0], s);
      WalkAllIsFold(dotAll, hs[1..], FoldLeaves(dotAll, Leaves(hs[0]), s));
      FoldAppend(dotAll, Leaves(hs[0]), LeavesSeq(hs[1..]), s);
    }
  }

  // ----- What the atoms stand for -----

  /** The parts of a list of one-byte and empty leaves, numbered from `position`. */
  function PartsOf(ls: seq<Hir>, dotAll: bool, position: nat): seq<Part> {
    if ls == [] then []
    else (if OneByte(ls[0]) then [PartOf(ls[0], dotAll, position)] else []) + PartsOf(ls[1..], dotAll, position + 1)
  }

  predicate IsRun(ls: seq<Hir>) {
    forall k :: 0 <= k < |ls| ==> OneByte(ls[k]) || ls[k].Empty?
  }

  lemma PartAccepts(h: Hir, dotAll: bool, position: nat, b: byte)
    requires OneByte(h)
    ensures b in PartBytes(PartOf(h, dotAll, position)) <==> Accepts(h, dotAll, b)
  {
    hide Members, MembersFrom;
    var p := PartOf(h, dotAll, position);
    if p.kind.Set? { MembersSpec(p.kind.bitmap); }
  }

  /** A run matches exactly its literals, all of the same length. */
  lemma {:induction false} RunMatches(ls: seq<Hir>, dotAll: bool, position: nat, mem: bytes, i: nat, j: nat)
    requires IsRun(ls)
    ensures MatchesSeq(ls, dotAll, mem, i, j)
       <==> i <= j <= |mem| && PicksOneOfEach(PartsOf(ls, dotAll, position), mem[i..j])
    decreases |ls|
  {
    if ls != [] {
      var parts := PartsOf(ls, dotAll, position);
      var rest := PartsOf(ls[1..], dotAll, position + 1);
      if OneByte(ls[0]) {
        assert parts[0] == PartOf(ls[0], dotAll, position) && parts[1..] == rest;
        if i < |mem| { PartAccepts(ls[0], dotAll, position, mem[i]); }
        if MatchesSeq(ls, dotAll, mem, i, j) {
          var k := MatchesSeqFirst(ls, dotAll, mem, i, j);
          RunMatches(ls[1..], dotAll, position + 1, mem, k, j);
          assert mem[i..j][1..] == mem[k..j];
        }
        if i < j <= |mem| {
          RunMatches(ls[1..], dotAll, position + 1, mem, i + 1, j);
          assert mem[i..j][1..] == mem[i + 1..j];
        }
      } else {
        assert parts == rest;
        RunMatches(ls[1..], dotAll, position + 1, mem, i, j);
        if MatchesSeq(ls, dotAll, mem, i, j) { var k := MatchesSeqFirst(ls, dotAll, mem, i, j); }
        if i <= j <= |mem| && PicksOneOfEach(parts, mem[i..j]) { assert Matches(ls[0], dotAll, mem, i, i); }
      }
    } else if i <= j <= |mem| {
      assert mem[i..j] == [] <==> i == j;
    }
  }

  /** Atoms taken from a run of the leaves. */
  ghost predicate RunAtoms(ls: seq<Hir>, dotAll: bool, a: Atoms) {
    && a.start < a.end <= |ls|
    && IsRun(ls[a.start..a.end])
    && a.literals == WordsOfParts(PartsOf(ls[a.start..a.end], dotAll, a.start))
  }

  /** Atoms taken from an alternation of literals. */
  ghost predicate BranchAtoms(ls: seq<Hir>, a: Atoms) {
    && a.end == a.start + 1 <= |ls|
    && ls[a.start].Alternation?
    && BranchLiterals(ls[a.start].alts) == Some(a.literals)
  }

  ghost predicate ValidAtoms(ls: seq<Hir>, dotAll: bool, a: Atoms) {
    RunAtoms(ls, dotAll, a) || BranchAtoms(ls, a)
  }

  lemma PartsCons(ls: seq<Hir>, dotAll: bool, position: nat)
    requires ls != []
    ensures var rest := PartsOf(ls[1..], dotAll, position + 1);
            if OneByte(ls[0]) then
              && PartsOf(ls, dotAll, position) == [PartOf(ls[0], dotAll, position)] + rest
              && PartOf(ls[0], dotAll, position).start == position
            else PartsOf(ls, dotAll, position) == rest
  {
  }

  lemma PartsNil(dotAll: bool, position: nat)
    ensures PartsOf([], dotAll, position) == []
  {
  }

  lemma {:induction false} PartsSnoc(ls: seq<Hir>, h: Hir, dotAll: bool, position: nat)
    ensures PartsOf(ls + [h], dotAll, position)
         == PartsOf(ls, dotAll, position) + if OneByte(h) then [PartOf(h, dotAll, position + |ls|)] else []
  {
    hide PartsOf, PartOf, OneByte;
    PartsCons(ls + [h], dotAll, position);
    if ls == [] {
      assert ls + [h] == [h] && [h][1..] == [];
      PartsNil(dotAll, position);
      PartsNil(dotAll, position + 1);
    } else {
      assert (ls + [h])[0] == ls[0] && (ls + [h])[1..] == ls[1..] + [h];
      PartsCons(ls, dotAll, position);
      PartsSnoc(ls[1..], h, dotAll, position + 1);
    }
  }

  /** The leaves up to the one that gave the last part of a prefix of the parts. */
  lemma {:induction false} PrefixOfParts(ls: seq<Hir>, dotAll: bool, position: nat, en: nat) returns (e: nat)
    requires 0 < en <= |PartsOf(ls, dotAll, position)|
    ensures e <= |ls| && position + e == PartsOf(ls, dotAll, position)[en - 1].start + 1
    ensures PartsOf(ls[..e], dotAll, position) == PartsOf(ls, dotAll, position)[..en]
    decreases |ls|
  {
    hide PartsOf, PartOf, OneByte;
    PartsNil(dotAll, position);
    PartsCons(ls, dotAll, position);
    var parts, rest := PartsOf(ls, dotAll, position), PartsOf(ls[1..], dotAll, position + 1);
    var taken := if OneByte(ls[0]) then 1 else 0;
    if taken == 1 && en == 1 {
      e := 1;
      PartsNil(dotAll, position + 1);
      assert ls[..1][1..] == [] && parts[..1] == [parts[0]];
    } else {
      e := PrefixOfParts(ls[1..], dotAll, position + 1, en - taken);
      e := e + 1;
      assert ls[..e][1..] == ls[1..][..e - 1];
      assert parts[..en] == parts[..taken] + rest[..en - taken] && parts[en - 1] == rest[en - taken - 1];
    }
    PartsCons(ls[..e], dotAll, position);
  }

  /** The leaves from the one that gave part `st` on. */
  lemma {:induction false} SuffixOfParts(ls: seq<Hir>, dotAll: bool, position: nat, st: nat) returns (b: nat)
    requires st < |PartsOf(ls, dotAll, position)|
    ensures b < |ls| && position + b == PartsOf(ls, dotAll, position)[st].start
    ensures PartsOf(ls[b..], dotAll, position + b) == PartsOf(ls, dotAll, position)[st..]
    decreases |ls|
  {
    hide PartsOf, PartOf, OneByte;
    PartsNil(dotAll, position);
    PartsCons(ls, dotAll, position);
    var parts, rest := PartsOf(ls, dotAll, position), PartsOf(ls[1..], dotAll, position + 1);
    var taken := if OneByte(ls[0]) then 1 else 0;
    if taken == 1 && st == 0 {
      b := 0;
      assert ls[0..] == ls && parts[0..] == parts;
    } else {
      b := SuffixOfParts(ls[1..], dotAll, position + 1, st - taken);
      assert ls[1..][b..] == ls[b + 1..] && parts[st..] == rest[st - taken..] && parts[st] == rest[st - taken];
      b := b + 1;
    }
  }

  /** A slice of the parts comes from the leaves between its first and its last part. */
  lemma SliceOfParts(ls: seq<Hir>, dotAll: bool, position: nat, st: nat, en: nat) returns (b: nat, e: nat)
    requires st < en <= |PartsOf(ls, dotAll, position)|
    ensures b < e <= |ls|
    ensures position + b == PartsOf(ls, dotAll, position)[st].start
    ensures position + e == PartsOf(ls, dotAll, position)[en - 1].start + 1
    ensures PartsOf(ls[b..e], dotAll, position + b) == PartsOf(ls, dotAll, position)[st..en]
  {
    var parts := PartsOf(ls, dotAll, position);
    b := SuffixOfParts(ls, dotAll, position, st);
    assert parts[st..][en - st - 1] == parts[en - 1] && parts[st..][..en - st] == parts[st..en];
    var n := PrefixOfParts(ls[b..], dotAll, position + b, en - st);
    e := b + n;
    assert ls[b..][..n] == ls[b..e];
    PartsNonEmpty(ls[b..e], dotAll, position + b);
  }

  lemma PartsNonEmpty(ls: seq<Hir>, dotAll: bool, position: nat)
    ensures PartsOf(ls, dotAll, position) != [] ==> ls != []
  {
  }

  // ----- The extraction only ever holds valid atoms -----

  /** The run being built holds the parts of the leaves from `from` to the current position. */
  ghost predicate Building(ls: seq<Hir>, dotAll: bool, s: Extraction, from: nat) {
    && from <= s.position <= |ls|
    && IsRun(ls[from..s.position])
    && s.run == PartsOf(ls[from..s.position], dotAll, from)
    && (s.best.Some? ==> ValidAtoms(ls, dotAll, s.best.value))
  }

  lemma RunIntoAtomsValid(ls: seq<Hir>, dotAll: bool, s: Extraction, from: nat)
    requires Building(ls, dotAll, s, from) && RunIntoAtoms(s.run).Some?
    ensures RunAtoms(ls, dotAll, RunIntoAtoms(s.run).value)
  {
    var st, en := RunAtomsSlice(s.run);
    SliceIsRunAtoms(ls, dotAll, from, s.position, st, en, RunIntoAtoms(s.run).value);
  }

  lemma SliceIsRunAtoms(ls: seq<Hir>, dotAll: bool, from: nat, to: nat, st: nat, en: nat, a: Atoms)
    requires from <= to <= |ls| && IsRun(ls[from..to]) && st < en <= |PartsOf(ls[from..to], dotAll, from)|
    requires var parts := PartsOf(ls[from..to], dotAll, from);
      a.start == parts[st].start && a.end == parts[en - 1].start + 1 && a.literals == WordsOfParts(parts[st..en])
    ensures RunAtoms(ls, dotAll, a)
  {
    var b, e := SliceOfParts(ls[from..to], dotAll, from, st, en);
    SubrunIsRunAtoms(ls, dotAll, from, to, b, e, a);
  }

  lemma SubrunIsRunAtoms(ls: seq<Hir>, dotAll: bool, from: nat, to: nat, b: nat, e: nat, a: Atoms)
    requires from <= to <= |ls| && IsRun(ls[from..to]) && b < e <= to - from
    requires a.start == from + b && a.end == from + e
    requires a.literals == WordsOfParts(PartsOf(ls[from..to][b..e], dotAll, from + b))
    ensures RunAtoms(ls, dotAll, a)
  {
    IsRunSlice(ls[from..to], b, e);
    SliceOfSlice(ls, from, to, b, e);
  }

  lemma IsRunSlice(run: seq<Hir>, b: nat, e: nat)
    requires IsRun(run) && b <= e <= |run|
    ensures IsRun(run[b..e])
  {
  }

  lemma CloseRunValid(ls: seq<Hir>, dotAll: bool, s: Extraction, from: nat)
    requires Building(ls, dotAll, s, from)
    ensures Building(ls, dotAll, CloseRun(s), s.position)
    ensures CloseRun(s).position == s.position
  {
    assert ls[s.position..s.position] == [];
    if s.run != [] && RunIntoAtoms(s.run).Some? { RunIntoAtomsValid(ls, dotAll, s, from); }
  }

  lemma FoldLeafValid(ls: seq<Hir>, dotAll: bool, s: Extraction, from: nat) returns (next: nat)
    requires Building(ls, dotAll, s, from) && s.position < |ls| && IsLeaf(ls[s.position])
    ensures Building(ls, dotAll, FoldLeaf(dotAll, s, ls[s.position]), next)
    ensures FoldLeaf(dotAll, s, ls[s.position]).position == s.position + 1
  {
    var h := ls[s.position];
    if OneByte(h) || h.Empty? {
      next := from;
      RunGrows(ls, dotAll, s, from);
    } else {
      CloseRunValid(ls, dotAll, s, from);
      var closed := CloseRun(s);
      next := s.position + 1;
      assert ls[next..next] == [];
    }
  }

  lemma RunGrows(ls: seq<Hir>, dotAll: bool, s: Extraction, from: nat)
    requires Building(ls, dotAll, s, from) && s.position < |ls|
    requires OneByte(ls[s.position]) || ls[s.position].Empty?
    ensures Building(ls, dotAll, FoldLeaf(dotAll, s, ls[s.position]), from)
  {
    var h, run := ls[s.position], ls[from..s.position];
    assert ls[from..s.position + 1] == run + [h];
    PartsSnoc(run, h, dotAll, from);
  }

  lemma {:induction false} FoldValid(ls: seq<Hir>, dotAll: bool, s: Extraction, from: nat) returns (next: nat)
    requires Building(ls, dotAll, s, from)
    requires forall k :: 0 <= k < |ls| ==> IsLeaf(ls[k])
    ensures Building(ls, dotAll, FoldLeaves(dotAll, ls[s.position..], s), next)
    ensures FoldLeaves(dotAll, ls[s.position..], s).position == |ls|
    decreases |ls| - s.position
  {
    if s.position == |ls| {
      next := from;
    } else {
      next := FoldLeafValid(ls, dotAll, s, from);
      assert ls[s.position..][1..] == ls[s.position + 1..];
      next := FoldValid(ls, dotAll, FoldLeaf(dotAll, s, ls[s.position]), next);
    }
  }

  const BEGIN := Extraction(None, [], 0)

  /** What the extraction ends with: `finish` closes the last run. */
  function Extracted(h: Hir, dotAll: bool): Extraction {
    CloseRun(FoldLeaves(dotAll, Leaves(h), BEGIN))
  }

  /** The tree `[^\x00-\xff]\x00`: its run is a window whose rank is below zero. */
  lemma UnderflowTree(dotAll: bool)
    ensures var h := Concat([Class({}), Literal(0)]);
            var run := FoldLeaves(dotAll, Leaves(h), BEGIN).run;
            WellFormed(h) && IsWindow(run, 0, |run|) && Admissible(run) && Underflows(run)
  {
    hide FoldLeaves, Leaves, Admissible, Underflows, PartsRank, ScoreOf;
    var a, b := Class({}), Literal(0);
    TwoLeaves(a, b);
    assert WellFormed(a) && WellFormed(b);
    FoldTwo(dotAll, a, b);
    UnderflowWitness(Part(0, Set({})), Part(1, Byte(0)));
  }

  lemma TwoLeaves(a: Hir, b: Hir)
    requires IsLeaf(a) && IsLeaf(b)
    ensures Leaves(Concat([a, b])) == [a, b]
  {
    assert [a, b][1..] == [b] && [b][1..] == [];
    assert LeavesSeq([b]) == [b];
    assert LeavesSeq([a, b]) == [a] + [b];
  }

  lemma FoldTwo(dotAll: bool, a: Hir, b: Hir)
    requires OneByte(a) && OneByte(b)
    ensures FoldLeaves(dotAll, [a, b], BEGIN).run == [PartOf(a, dotAll, 0), PartOf(b, dotAll, 1)]
  {
    hide PartOf;
    assert [a, b][1..] == [b] && [b][1..] == [];
    var one := FoldLeaf(dotAll, BEGIN, a);
    assert one == Extraction(None, [PartOf(a, dotAll, 0)], 1);
    var two := FoldLeaf(dotAll, one, b);
    assert two == Extraction(None, [PartOf(a, dotAll, 0)] + [PartOf(b, dotAll, 1)], 2);
    assert FoldLeaves(dotAll, [b], one) == FoldLeaves(dotAll, [], two) == two;
  }

  lemma ExtractedValid(h: Hir, dotAll: bool)
    ensures Extracted(h, dotAll).position == |Leaves(h)|
    ensures Extracted(h, dotAll).best.Some? ==> ValidAtoms(Leaves(h), dotAll, Extracted(h, dotAll).best.value)
  {
    var ls := Leaves(h);
    LeavesAreLeaves(h);
    assert ls[0..0] == [] && ls[0..] == ls;
    var from := FoldValid(ls, dotAll, BEGIN, 0);
    CloseRunValid(ls, dotAll, FoldLeaves(dotAll, ls, BEGIN), from);
  }

  // ----- The leaves that the atoms replace match exactly the literals -----

  lemma {:induction false} LiteralBytesMatch(hs: seq<Hir>, dotAll: bool, mem: bytes, i: nat, j: nat)
    requires LiteralBytes(hs).Some? && i <= j <= |mem|
    ensures MatchesSeq(hs, dotAll, mem, i, j) <==> mem[i..j] == LiteralBytes(hs).value
    decreases |hs|
  {
    if hs != [] {
      var w := LiteralBytes(hs[1..]).value;
      if MatchesSeq(hs, dotAll, mem, i, j) {
        var k := MatchesSeqFirst(hs, dotAll, mem, i, j);
        MatchesSeqBounds(hs[1..], dotAll, mem, k, j);
        LiteralBytesMatch(hs[1..], dotAll, mem, k, j);
        assert mem[i..j] == [mem[i]] + mem[k..j];
      }
      if mem[i..j] == [hs[0].b] + w {
        assert |mem[i..j]| > 0 && mem[i] == mem[i..j][0];
        assert mem[i + 1..j] == mem[i..j][1..] == w;
        LiteralBytesMatch(hs[1..], dotAll, mem, i + 1, j);
        assert Matches(hs[0], dotAll, mem, i, i + 1);
      }
    } else {
      assert mem[i..j] == [] <==> i == j;
    }
  }

  lemma BranchLiteralMatches(h: Hir, dotAll: bool, mem: bytes, i: nat, j: nat)
    requires BranchLiteral(h).Some? && i <= j <= |mem|
    ensures Matches(h, dotAll, mem, i, j) <==> mem[i..j] == BranchLiteral(h).value
  {
    match h
    case Concat(hs) => LiteralBytesMatch(hs, dotAll, mem, i, j);
    case Literal(b) => assert mem[i..j] == [b] <==> j == i + 1 && mem[i] == b;
  }

  lemma {:induction false} BranchLiteralsMatch(alts: seq<Hir>, dotAll: bool, mem: bytes, i: nat, j: nat)
    requires BranchLiterals(alts).Some? && i <= j <= |mem|
    ensures Matches(Alternation(alts), dotAll, mem, i, j) <==> mem[i..j] in BranchLiterals(alts).value
    decreases |alts|
  {
    if alts != [] {
      BranchLiteralMatches(alts[0], dotAll, mem, i, j);
      BranchLiteralsMatch(alts[1..], dotAll, mem, i, j);
      if k :| 0 <= k < |alts| && Matches(alts[k], dotAll, mem, i, j) {
        if k > 0 { assert Matches(alts[1..][k - 1], dotAll, mem, i, j); }
      }
      if k :| 0 <= k < |alts[1..]| && Matches(alts[1..][k], dotAll, mem, i, j) {
        assert Matches(alts[k + 1], dotAll, mem, i, j);
      }
    }
  }

  /** The leaves of valid atoms match exactly the literals. */
  lemma AtomsMatch(ls: seq<Hir>, dotAll: bool, a: Atoms, mem: bytes, i: nat, j: nat)
    requires ValidAtoms(ls, dotAll, a)
    ensures a.start < a.end <= |ls|
    ensures MatchesSeq(ls[a.start..a.end], dotAll, mem, i, j) <==> i <= j <= |mem| && mem[i..j] in a.literals
  {
    var mid := ls[a.start..a.end];
    if RunAtoms(ls, dotAll, a) {
      RunMatches(mid, dotAll, a.start, mem, i, j);
      if i <= j <= |mem| { WordsOfPartsMember(PartsOf(mid, dotAll, a.start), mem[i..j]); }
    } else {
      assert |mid| == 1 && mid[0] == ls[a.start];
      assert mid == [ls[a.start]];
      MatchesSeqOne(ls[a.start], dotAll, mem, i, j);
      if i <= j <= |mem| { BranchLiteralsMatch(ls[a.start].alts, dotAll, mem, i, j); }
    }
  }

  /** All the literals of a run have the same length. */
  lemma RunAtomsLength(ls: seq<Hir>, dotAll: bool, a: Atoms, u: bytes, v: bytes)
    requires RunAtoms(ls, dotAll, a) && u in a.literals && v in a.literals
    ensures |u| == |v|
  {
    var parts := PartsOf(ls[a.start..a.end], dotAll, a.start);
    WordsOfPartsMember(parts, u);
    WordsOfPartsMember(parts, v);
    PicksLength(parts, u);
    PicksLength(parts, v);
  }
}
