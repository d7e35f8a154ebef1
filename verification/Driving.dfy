/** The walk of `regex/visitor.rs` driving the visitor objects, and the functions that build one and read it at the end. */
module Driving {
  import opened Base
  import opened Hir
  import opened Visitor
  import Analysis
  import Words
  import OnlyLiterals
  import Widener
  import Preference
  import Atoms
  import Literals
  import PrePost
  import Split
  import Choice

  // ----- The visitors of the crate, as one type -----

  datatype Driver =
    | Analysing(analyser: Analysis.HirAnalyser)
    | Listing(lister: OnlyLiterals.Extractor)
    | Widening(widener: Widener.HirWidener)
    | Extracting(extractor: Literals.Extractor)
    | Cutting(cutter: PrePost.PrePostExtractor)

  /** What a visitor holds, or its panic. */
  datatype Seen =
    | SeenAnalysis(analysis: Run<Analysis.State>)
    | SeenList(list: Run<OnlyLiterals.State>)
    | SeenWide(wide: Run<Widener.State>)
    | SeenExtraction(extraction: Literals.Extraction)
    | SeenCut(halves: Run<PrePost.State>)

  /** A visitor on one kind of states, as one on all of them. */
  function Lift<S(!new)>(v: Visitor<S>, into: S -> Seen, from: Seen -> Option<S>): Visitor<Seen> {
    Visitor(
      (s: Seen, h: Hir) => if from(s).None? then (s, Skip) else var (t, action) := v.pre(from(s).value, h); (into(t), action),
      (s: Seen) => if from(s).None? then s else into(v.alternationIn(from(s).value)),
      (s: Seen, h: Hir) => if from(s).None? then s else into(v.post(from(s).value, h)))
  }

  function IntoAnalysis(r: Run<Analysis.State>): Seen {
    SeenAnalysis(r)
  }

  function FromAnalysis(s: Seen): Option<Run<Analysis.State>> {
    if s.SeenAnalysis? then Some(s.analysis) else None
  }

  function IntoList(r: Run<OnlyLiterals.State>): Seen {
    SeenList(r)
  }

  function FromList(s: Seen): Option<Run<OnlyLiterals.State>> {
    if s.SeenList? then Some(s.list) else None
  }

  function IntoWide(r: Run<Widener.State>): Seen {
    SeenWide(r)
  }

  function FromWide(s: Seen): Option<Run<Widener.State>> {
    if s.SeenWide? then Some(s.wide) else None
  }

  function IntoExtraction(r: Literals.Extraction): Seen {
    SeenExtraction(r)
  }

  function FromExtraction(s: Seen): Option<Literals.Extraction> {
    if s.SeenExtraction? then Some(s.extraction) else None
  }

  function IntoCut(r: Run<PrePost.State>): Seen {
    SeenCut(r)
  }

  function FromCut(s: Seen): Option<Run<PrePost.State>> {
    if s.SeenCut? then Some(s.halves) else None
  }

  function VisitorOf(d: Driver): Visitor<Seen> {
    match d
    case Analysing(a) => Lift(Analysis.Analyser(a.dotAll), IntoAnalysis, FromAnalysis)
    case Listing(_) => Lift(OnlyLiterals.ExtractorVisitor(), IntoList, FromList)
    case Widening(_) => Lift(Widener.WidenerVisitor(), IntoWide, FromWide)
    case Extracting(e) => Lift(Literals.ExtractorVisitor(e.dotAll), IntoExtraction, FromExtraction)
    case Cutting(c) => Lift(PrePost.PrePostVisitor(c.cut), IntoCut, FromCut)
  }

  lemma LiftedAt<S(!new)>(v: Visitor<S>, into: S -> Seen, from: Seen -> Option<S>, s: S, h: Hir)
    requires from(into(s)) == Some(s)
    ensures var w := Lift(v, into, from);
            && w.pre(into(s), h) == (into(v.pre(s, h).0), v.pre(s, h).1)
            && w.alternationIn(into(s)) == into(v.alternationIn(s))
            && w.post(into(s), h) == into(v.post(s, h))
  {
  }

  lemma {:induction false} LiftWalk<S(!new)>(v: Visitor<S>, into: S -> Seen, from: Seen -> Option<S>, h: Hir, s: S)
    requires forall t :: from(into(t)) == Some(t)
    ensures Walk(Lift(v, into, from), h, into(s)) == into(Walk(v, h, s))
    decreases Size(h), 0
  {
    var (t, action) := v.pre(s, h);
    SizeChildren(h);
    if action.Continue? { LiftAll(v, into, from, Children(h), h.Alternation?, t); }
  }

  lemma {:induction false} LiftAll<S(!new)>(v: Visitor<S>, into: S -> Seen, from: Seen -> Option<S>, hs: seq<Hir>,
                                            alternated: bool, s: S)
    requires forall t :: from(into(t)) == Some(t)
    ensures WalkAll(Lift(v, into, from), hs, alternated, into(s)) == into(WalkAll(v, hs, alternated, s))
    decreases SizeAll(hs), 1
  {
    if hs != [] {
      LiftWalk(v, into, from, hs[0], s);
      LiftMore(v, into, from, hs[1..], alternated, Walk(v, hs[0], s));
    }
  }

  lemma {:induction false} LiftMore<S(!new)>(v: Visitor<S>, into: S -> Seen, from: Seen -> Option<S>, hs: seq<Hir>,
                                             alternated: bool, s: S)
    requires forall t :: from(into(t)) == Some(t)
    ensures WalkMore(Lift(v, into, from), hs, alternated, into(s)) == into(WalkMore(v, hs, alternated, s))
    decreases SizeAll(hs), 1
  {
    if hs != [] {
      var t := if alternated then v.alternationIn(s) else s;
      LiftWalk(v, into, from, hs[0], t);
      LiftMore(v, into, from, hs[1..], alternated, Walk(v, hs[0], t));
    }
  }

  // ----- A panic ends the walk -----

  predicate Dead(s: Seen) {
    match s
    case SeenAnalysis(r) => r.Panicked?
    case SeenList(r) => r.Panicked?
    case SeenWide(r) => r.Panicked?
    case SeenExtraction(_) => false
    case SeenCut(r) => r.Panicked?
  }

  ghost predicate Absorbs(v: Visitor<Seen>) {
    && (forall s, h :: Dead(s) ==> Dead(v.pre(s, h).0) && Dead(v.post(s, h)))
    && (forall s :: Dead(s) ==> Dead(v.alternationIn(s)))
  }

  lemma LiftAbsorbs<S(!new)>(v: Visitor<S>, into: S -> Seen, from: Seen -> Option<S>, dead: S -> bool)
    requires forall t :: from(into(t)) == Some(t) && Dead(into(t)) == dead(t)
    requires forall s :: from(s).Some? ==> into(from(s).value) == s
    requires forall t, h :: dead(t) ==> dead(v.pre(t, h).0) && dead(v.post(t, h))
    requires forall t :: dead(t) ==> dead(v.alternationIn(t))
    ensures Absorbs(Lift(v, into, from))
  {
    hide Dead;
    var w := Lift(v, into, from);
    forall s, h | Dead(s) ensures Dead(w.pre(s, h).0) && Dead(w.post(s, h)) {
      if from(s).Some? {
        assert s == into(from(s).value) && dead(from(s).value);
        LiftedAt(v, into, from, from(s).value, h);
      }
    }
    forall s | Dead(s) ensures Dead(w.alternationIn(s)) {
      if from(s).Some? {
        assert s == into(from(s).value) && dead(from(s).value);
        LiftedAt(v, into, from, from(s).value, Empty);
      }
    }
  }

  lemma VisitorAbsorbs(d: Driver)
    ensures Absorbs(VisitorOf(d))
  {
    match d
    case Analysing(a) =>
      LiftAbsorbs(Analysis.Analyser(a.dotAll), IntoAnalysis, FromAnalysis, (r: Run<Analysis.State>) => r.Panicked?);
    case Listing(_) =>
      LiftAbsorbs(OnlyLiterals.ExtractorVisitor(), IntoList, FromList, (r: Run<OnlyLiterals.State>) => r.Panicked?);
    case Widening(_) => LiftAbsorbs(Widener.WidenerVisitor(), IntoWide, FromWide, (r: Run<Widener.State>) => r.Panicked?);
    case Extracting(e) =>
      LiftAbsorbs(Literals.ExtractorVisitor(e.dotAll), IntoExtraction, FromExtraction, (s: Literals.Extraction) => false);
    case Cutting(c) =>
      LiftAbsorbs(PrePost.PrePostVisitor(c.cut), IntoCut, FromCut, (r: Run<PrePost.State>) => r.Panicked?);
  }

  lemma {:induction false} DeadWalk(v: Visitor<Seen>, h: Hir, s: Seen)
    requires Absorbs(v) && Dead(v.pre(s, h).0)
    ensures Dead(Walk(v, h, s))
    decreases Size(h), 0
  {
    hide Dead;
    var (t, action) := v.pre(s, h);
    SizeChildren(h);
    if action.Continue? && Children(h) != [] {
      assert Dead(v.pre(t, Children(h)[0]).0);
      DeadWalk(v, Children(h)[0], t);
      DeadMore(v, Children(h)[1..], h.Alternation?, Walk(v, Children(h)[0], t));
    }
  }

  lemma {:induction false} DeadMore(v: Visitor<Seen>, hs: seq<Hir>, alternated: bool, s: Seen)
    requires Absorbs(v) && Dead(s)
    ensures Dead(WalkMore(v, hs, alternated, s))
    decreases SizeAll(hs), 1
  {
    hide Dead;
    if hs != [] {
      var t := if alternated then v.alternationIn(s) else s;
      assert Dead(v.pre(t, hs[0]).0);
      DeadWalk(v, hs[0], t);
      DeadMore(v, hs[1..], alternated, Walk(v, hs[0], t));
    }
  }

  lemma {:induction false} DeadUnwind(v: Visitor<Seen>, stack: Stack, s: Seen)
    requires Absorbs(v) && Dead(s)
    ensures Dead(Unwind(v, stack, s))
    decreases |stack|
  {
    if stack != [] {
      var (frame, parent) := stack[|stack| - 1];
      DeadMore(v, frame.rest, frame.isAlternation, s);
      DeadUnwind(v, stack[..|stack| - 1], v.post(WalkMore(v, frame.rest, frame.isAlternation, s), parent));
    }
  }

  // ----- The calls on the object -----

  function ObjectOf(d: Driver): object {
    match d
    case Analysing(a) => a
    case Listing(l) => l
    case Widening(w) => w
    case Extracting(e) => e
    case Cutting(c) => c
  }

  ghost function ViewOf(d: Driver): Seen
    reads ObjectOf(d)
  {
    match d
    case Analysing(a) => SeenAnalysis(Running(a.View()))
    case Listing(l) => SeenList(Running(l.View()))
    case Widening(w) => SeenWide(Running(w.View()))
    case Extracting(e) => SeenExtraction(e.View())
    case Cutting(c) => SeenCut(Running(c.View()))
  }

  method VisitPre(d: Driver, h: Hir) returns (action: Action)
    requires !Dead(VisitorOf(d).pre(ViewOf(d), h).0)
    modifies ObjectOf(d)
    ensures (ViewOf(d), action) == VisitorOf(d).pre(old(ViewOf(d)), h)
  {
    match d {
      case Analysing(a) =>
        LiftedAt(Analysis.Analyser(a.dotAll), IntoAnalysis, FromAnalysis, Running(a.View()), h);
        action := a.VisitPre(h);
      case Listing(l) =>
        LiftedAt(OnlyLiterals.ExtractorVisitor(), IntoList, FromList, Running(l.View()), h);
        action := l.VisitPre(h);
      case Widening(w) =>
        LiftedAt(Widener.WidenerVisitor(), IntoWide, FromWide, Running(w.View()), h);
        action := w.VisitPre(h);
      case Extracting(e) =>
        LiftedAt(Literals.ExtractorVisitor(e.dotAll), IntoExtraction, FromExtraction, e.View(), h);
        action := e.VisitPre(h);
      case Cutting(c) =>
        LiftedAt(PrePost.PrePostVisitor(c.cut), IntoCut, FromCut, Running(c.View()), h);
        action := c.VisitPre(h);
    }
  }

  method VisitAlternationIn(d: Driver)
    requires !Dead(VisitorOf(d).alternationIn(ViewOf(d)))
    modifies ObjectOf(d)
    ensures ViewOf(d) == VisitorOf(d).alternationIn(old(ViewOf(d)))
  {
    match d {
      case Analysing(a) =>
        LiftedAt(Analysis.Analyser(a.dotAll), IntoAnalysis, FromAnalysis, Running(a.View()), Empty);
        a.VisitAlternationIn();
      case Listing(l) =>
        LiftedAt(OnlyLiterals.ExtractorVisitor(), IntoList, FromList, Running(l.View()), Empty);
        l.VisitAlternationIn();
      case Widening(w) =>
        LiftedAt(Widener.WidenerVisitor(), IntoWide, FromWide, Running(w.View()), Empty);
      case Extracting(e) =>
        LiftedAt(Literals.ExtractorVisitor(e.dotAll), IntoExtraction, FromExtraction, e.View(), Empty);
      case Cutting(c) =>
        LiftedAt(PrePost.PrePostVisitor(c.cut), IntoCut, FromCut, Running(c.View()), Empty);
    }
  }

  method VisitPost(d: Driver, h: Hir)
    requires !Dead(VisitorOf(d).post(ViewOf(d), h))
    modifies ObjectOf(d)
    ensures ViewOf(d) == VisitorOf(d).post(old(ViewOf(d)), h)
  {
    match d {
      case Analysing(a) =>
        LiftedAt(Analysis.Analyser(a.dotAll), IntoAnalysis, FromAnalysis, Running(a.View()), h);
        a.VisitPost(h);
      case Listing(l) =>
        LiftedAt(OnlyLiterals.ExtractorVisitor(), IntoList, FromList, Running(l.View()), h);
        l.VisitPost(h);
      case Widening(w) =>
        LiftedAt(Widener.WidenerVisitor(), IntoWide, FromWide, Running(w.View()), h);
        w.VisitPost(h);
      case Extracting(e) =>
        LiftedAt(Literals.ExtractorVisitor(e.dotAll), IntoExtraction, FromExtraction, e.View(), h);
        e.VisitPost(h);
      case Cutting(c) =>
        LiftedAt(PrePost.PrePostVisitor(c.cut), IntoCut, FromCut, Running(c.View()), h);
        c.VisitPost(h);
    }
  }

  // ----- The loop -----

  /** `visit`, calling the methods of the object. If the structural recursion does not panic, neither does the loop. */
  method Drive(root: Hir, d: Driver)
    requires !Dead(Walk(VisitorOf(d), root, ViewOf(d)))
    modifies ObjectOf(d)
    ensures ViewOf(d) == Walk(VisitorOf(d), root, old(ViewOf(d)))
  {
    ghost var v, goal := VisitorOf(d), Walk(VisitorOf(d), root, ViewOf(d));
    VisitorAbsorbs(d);
    var h := root;
    var stack: Stack := [];
    while true
      invariant Unwind(v, stack, Walk(v, h, ViewOf(d))) == goal
      decreases Size(h) + SizeStack(stack), Size(h)
    {
      ghost var total := Size(h) + SizeStack(stack);
      AliveWalk(v, stack, h, ViewOf(d));
      var action := VisitPre(d, h);
      if action.Continue? {
        var frame := BuildStackFrame(h);
        if frame.Some? {
          Enter(v, stack, h, frame.value, ViewOf(d));
          SizeChildren(h);
          stack := stack + [(frame.value, h)];
          h := frame.value.hir;
          continue;
        }
      }
      AliveUnwind(v, stack, v.post(ViewOf(d), h));
      VisitPost(d, h);
      while true
        invariant Unwind(v, stack, ViewOf(d)) == goal
        invariant SizeStack(stack) < total
        decreases |stack|
      {
        if stack == [] {
          return;
        }
        var (frame, parent) := stack[|stack| - 1];
        stack := stack[..|stack| - 1];
        var next := Next(frame);
        if next.None? {
          AliveUnwind(v, stack, v.post(ViewOf(d), parent));
          VisitPost(d, parent);
        } else {
          assert frame.rest[0] == next.value.hir && frame.rest[1..] == next.value.rest;
          if next.value.isAlternation {
            AliveMore(v, stack, frame, parent, ViewOf(d));
            VisitAlternationIn(d);
          }
          Push(v, stack, next.value, parent, Walk(v, next.value.hir, ViewOf(d)));
          stack := stack + [(next.value, parent)];
          h := next.value.hir;
          break;
        }
      }
    }
  }

  lemma AliveUnwind(v: Visitor<Seen>, stack: Stack, s: Seen)
    requires Absorbs(v) && !Dead(Unwind(v, stack, s))
    ensures !Dead(s)
  {
    if Dead(s) { DeadUnwind(v, stack, s); }
  }

  lemma AliveWalk(v: Visitor<Seen>, stack: Stack, h: Hir, s: Seen)
    requires Absorbs(v) && !Dead(Unwind(v, stack, Walk(v, h, s)))
    ensures !Dead(v.pre(s, h).0)
  {
    AliveUnwind(v, stack, Walk(v, h, s));
    if Dead(v.pre(s, h).0) { DeadWalk(v, h, s); }
  }

  lemma AliveMore(v: Visitor<Seen>, stack: Stack, frame: Frame, parent: Hir, s: Seen)
    requires Absorbs(v) && frame.rest != [] && frame.isAlternation
    requires !Dead(Unwind(v, stack, v.post(WalkMore(v, frame.rest, true, s), parent)))
    ensures !Dead(v.alternationIn(s))
  {
    AliveUnwind(v, stack, v.post(WalkMore(v, frame.rest, true, s), parent));
    var t := v.alternationIn(s);
    if Dead(t) {
      assert Dead(v.pre(t, frame.rest[0]).0);
      DeadWalk(v, frame.rest[0], t);
      DeadMore(v, frame.rest[1..], true, Walk(v, frame.rest[0], t));
    }
  }

  // ----- The functions that walk a HIR -----

  /** `analyze_hir`: every flag says whether such a node exists anywhere, and the count, when set, is the exact number
      of words of a HIR without assertions or repetitions; when no class is empty, only an overflow unsets it. */
  method AnalyzeHir(h: Hir, dotAll: bool) returns (r: Analysis.Findings)
    requires WellFormed(h)
    ensures r.hasStartOrEndLine <==> Has(h, LineAssertion)
    ensures r.hasWordBoundaries <==> Has(h, BoundaryAssertion)
    ensures r.hasRepetitions <==> Has(h, AnyRepetition)
    ensures r.hasGreedyRepetitions <==> Has(h, GreedyRepetition)
    ensures r.hasClasses <==> Has(h, AnyClass)
    ensures r.hasAlternations <==> Has(h, AnyAlternation)
    ensures r.nbAltLiterals.Some? ==> !Has(h, Uncountable) && r.nbAltLiterals.value == Analysis.Count(h, dotAll)
    ensures !Has(h, EmptyClass) ==>
              (r.nbAltLiterals.Some? <==> !Has(h, Uncountable) && Analysis.Count(h, dotAll) <= USIZE_MAX)
  {
    var a := new Analysis.HirAnalyser(dotAll);
    ghost var init := Analysis.State(Analysis.NOTHING, []);
    LiftWalk(Analysis.Analyser(dotAll), IntoAnalysis, FromAnalysis, h, Running(init));
    Analysis.WalkIsAfter(dotAll, h, init);
    Drive(h, Analysing(a));
    r := a.Finish();
    Analysis.AfterSays(h, dotAll);
  }

  /** `hir_to_only_literals`: some literals exactly when the HIR has no dot, assertion, repetition or negated mask; and
      without an empty class, they are its words, as many as the analysis counts, and a position matches if and only if
      one of them stands there. */
  method HirToOnlyLiterals(h: Hir) returns (r: Option<seq<bytes>>)
    requires WellFormed(h)
    ensures r.Some? <==> !Has(h, NotLiteral)
    ensures r.Some? && !Has(h, EmptyClass) ==>
              && r.value == Words.WordsOf(h)
              && (forall dotAll :: |r.value| == Analysis.Count(h, dotAll))
              && (forall dotAll, mem, i, j {:trigger Matches(h, dotAll, mem, i, j)} :: 0 <= i <= j <= |mem| ==>
                    (Matches(h, dotAll, mem, i, j) <==> mem[i..j] in r.value))
  {
    var l := new OnlyLiterals.Extractor();
    ghost var init := OnlyLiterals.State(OnlyLiterals.FRESH, []);
    LiftWalk(OnlyLiterals.ExtractorVisitor(), IntoList, FromList, h, Running(init));
    OnlyLiterals.WalkIsAfter(h, init);
    Drive(h, Listing(l));
    r := l.Finish();
    OnlyLiterals.AfterMeans(h, OnlyLiterals.FRESH);
    if r.Some? && !Has(h, EmptyClass) {
      OnlyLiterals.ResultIsWordsIff(h);
      forall dotAll ensures |r.value| == Analysis.Count(h, dotAll) { Words.WordsCounted(h, dotAll); }
      forall dotAll, mem, i, j {:trigger Matches(h, dotAll, mem, i, j)} | 0 <= i <= j <= |mem|
        ensures Matches(h, dotAll, mem, i, j) <==> mem[i..j] in r.value
      {
        Words.MatchesIsWord(h, dotAll, mem, i, j);
      }
    }
  }

  /** `widen_hir`: what the widened HIR matches on widened text. */
  method WidenHir(h: Hir) returns (r: Hir)
    ensures r == Widener.Widened(h)
    ensures forall dotAll, s, i: nat, j: nat {:trigger Matches(h, dotAll, s, i, j)} ::
              Matches(h, dotAll, s, i, j) ==> Matches(r, dotAll, Widener.Wide(s), 2 * i, 2 * j)
    ensures forall dotAll, s, i: nat, j: nat {:trigger Matches(Widener.Erased(h), dotAll, s, i, j)} ::
              Matches(Widener.Erased(h), dotAll, s, i, j) <==> Matches(r, dotAll, Widener.Wide(s), 2 * i, 2 * j)
    ensures forall dotAll, mem, i: nat, j: nat {:trigger Matches(r, dotAll, mem, i, j)} ::
              Matches(r, dotAll, mem, i, j) ==> (j - i) % 2 == 0
    ensures forall dotAll, s, i: nat {:trigger Preference.Ends(Widener.Erased(h), dotAll, s, i)} :: i <= |s| ==>
              Preference.Ends(r, dotAll, Widener.Wide(s), 2 * i)
              == Preference.Doubled(Preference.Ends(Widener.Erased(h), dotAll, s, i))
  {
    var w := new Widener.HirWidener();
    ghost var init := Widener.State(None, []);
    LiftWalk(Widener.WidenerVisitor(), IntoWide, FromWide, h, Running(init));
    Widener.WalkAdds(h, init);
    Widener.WidenedFromNothing(h);
    Drive(h, Widening(w));
    r := w.hir.value;
    hide Matches, Widener.Widened, Widener.Erased, Widener.Wide, Preference.Ends, Preference.Doubled;
    forall dotAll, s, i: nat {:trigger Preference.Ends(Widener.Erased(h), dotAll, s, i)} | i <= |s|
      ensures Preference.Ends(r, dotAll, Widener.Wide(s), 2 * i)
           == Preference.Doubled(Preference.Ends(Widener.Erased(h), dotAll, s, i))
    {
      Preference.WidenedEnds(h, dotAll, s, i);
    }
    forall dotAll, s, i: nat, j: nat {:trigger Matches(h, dotAll, s, i, j)} | Matches(h, dotAll, s, i, j)
      ensures Matches(r, dotAll, Widener.Wide(s), 2 * i, 2 * j)
    {
      Widener.TextToWide(h, dotAll, s, i, j);
    }
    forall dotAll, s, i: nat, j: nat {:trigger Matches(Widener.Erased(h), dotAll, s, i, j)}
      ensures Matches(Widener.Erased(h), dotAll, s, i, j) <==> Matches(r, dotAll, Widener.Wide(s), 2 * i, 2 * j)
    {
      Widener.WidenedMatchesErased(h, dotAll, s, i, j);
    }
    forall dotAll, mem, i: nat, j: nat {:trigger Matches(r, dotAll, mem, i, j)} | Matches(r, dotAll, mem, i, j)
      ensures (j - i) % 2 == 0
    {
      Widener.EvenLength(h, dotAll, mem, i, j);
    }
  }

  method DriveExtractor(h: Hir, e: Literals.Extractor)
    modifies e
    ensures e.View() == Literals.FoldLeaves(e.dotAll, Leaves(h), old(e.View()))
  {
    hide Literals.FoldLeaves, Literals.ExtractorVisitor, Walk, Leaves;
    LiftWalk(Literals.ExtractorVisitor(e.dotAll), IntoExtraction, FromExtraction, h, e.View());
    Literals.WalkIsFold(e.dotAll, h, e.View());
    Drive(h, Extracting(e));
  }

  /** The first visit of `get_literals_details`: the best atoms, and the number of leaves. */
  method ExtractAtoms(h: Hir, dotAll: bool) returns (best: Option<Atoms.Atoms>, last: nat)
    ensures best == Literals.Extracted(h, dotAll).best && last == |Leaves(h)|
  {
    hide Literals.FoldLeaves, Literals.CloseRun, Literals.ValidAtoms, Leaves;
    var e := new Literals.Extractor(dotAll);
    DriveExtractor(h, e);
    e.CloseRunInPlace();
    Literals.ExtractedValid(h, dotAll);
    best, last := e.bestAtoms, e.currentPosition;
  }

  /** The second visit. No assertion on the top-level node fires. */
  method CutAround(h: Hir, cut: PrePost.Cut) returns (pre: Option<Hir>, post: Option<Hir>)
    ensures pre == PrePost.Restrict(cut, false, h, 0) && post == PrePost.Restrict(cut, true, h, 0)
  {
    var c := new PrePost.PrePostExtractor(cut);
    ghost var empty := PrePost.State(PrePost.Side([], None), PrePost.Side([], None), 0);
    LiftWalk(PrePost.PrePostVisitor(cut), IntoCut, FromCut, h, Running(empty));
    PrePost.WalkRestricts(cut, h, empty);
    hide PrePost.Restrict, PrePost.PrePostVisitor;
    Drive(h, Cutting(c));
    pre, post := c.preNode, c.postNode;
  }

  /** `get_literals_details`: the literals are the best that the leaves offer, with the halves around them; there are none
      only when the leaves offer nothing. */
  method GetLiteralsDetails(h: Hir, dotAll: bool) returns (d: Split.Details)
    ensures d == Split.DetailsOf(h, dotAll)
    ensures (forall c :: !Choice.Offered(Leaves(h), dotAll, c)) ==> d == Split.Details([], None, None)
    ensures (exists c :: Choice.Offered(Leaves(h), dotAll, c)) ==>
              exists c :: Choice.Best(Leaves(h), dotAll, c) && d == Split.SplitAt(h, c.atoms)
  {
    Choice.DetailsAreBest(h, dotAll, Leaves(h));
    hide Literals.Extracted, PrePost.Restrict, Leaves, Choice.Offered, Choice.Best;
    var best, last := ExtractAtoms(h, dotAll);
    if best.None? {
      return Split.Details([], None, None);
    }
    var pre, post := CutAround(h, PrePost.Cut(best.value.start, best.value.end, last));
    d := Split.Details(best.value.literals, pre, post);
  }
}
