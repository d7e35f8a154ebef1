/** The analysis of a HIR (`matcher/analysis.rs`): which nodes it holds and how many literals cover it. */
module Analysis {
  import opened Base
  import opened Hir
  import opened Visitor

  // ----- The visitor -----

  datatype Findings = Findings(
    hasStartOrEndLine: bool,
    hasRepetitions: bool,
    hasGreedyRepetitions: bool,
    hasWordBoundaries: bool,
    hasClasses: bool,
    hasAlternations: bool,
    nbAltLiterals: Option<nat>)

  /** The count before an alternation, and the sum over its branches visited so far. */
  datatype AltStack = AltStack(prev: Option<nat>, branches: Option<nat>)

  datatype State = State(found: Findings, altStack: seq<AltStack>)

  const NOTHING := Findings(false, false, false, false, false, false, Some(1))

  function CheckedMul(a: Option<nat>, b: Option<nat>): Option<nat> {
    if a.Some? && b.Some? then Checked(a.value * b.value) else None
  }

  function CheckedAdd(a: Option<nat>, b: Option<nat>): Option<nat> {
    if a.Some? && b.Some? then Checked(a.value + b.value) else None
  }

  /** How many bytes a one-byte node accepts, as the analyser counts them. */
  function Width(h: Hir, dotAll: bool): nat {
    match h
    case Mask(_, _, negated) => if negated then 256 - 16 else 16
    case Dot => if dotAll then 256 else 255
    case Class(bitmap) => |bitmap|
    case _ => 1
  }

  /** What entering a node adds to the findings. */
  function Enter(dotAll: bool, f: Findings, h: Hir): Findings {
    match h
    case Mask(_, _, _) => f.(nbAltLiterals := CheckedMul(f.nbAltLiterals, Some(Width(h, dotAll))))
    case Assertion(StartLine) => f.(hasStartOrEndLine := true, nbAltLiterals := None)
    case Assertion(EndLine) => f.(hasStartOrEndLine := true, nbAltLiterals := None)
    case Assertion(_) => f.(hasWordBoundaries := true, nbAltLiterals := None)
    case Repetition(_, _, greedy) =>
      f.(hasRepetitions := true, hasGreedyRepetitions := f.hasGreedyRepetitions || greedy, nbAltLiterals := None)
    case Dot => f.(nbAltLiterals := CheckedMul(f.nbAltLiterals, Some(Width(h, dotAll))))
    case Class(_) => f.(hasClasses := true, nbAltLiterals := CheckedMul(f.nbAltLiterals, Some(Width(h, dotAll))))
    case Alternation(_) => f.(hasAlternations := true, nbAltLiterals := Some(1))
    case _ => f
  }

  function Pre(dotAll: bool, s: State, h: Hir): (State, Action) {
    (State(Enter(dotAll, s.found, h),
           if h.Alternation? then s.altStack + [AltStack(s.found.nbAltLiterals, Some(0))] else s.altStack),
     Continue)
  }

  function AlternationIn(s: State): Run<State> {
    if s.altStack == [] then Panicked
    else
      var last := |s.altStack| - 1;
      var v := s.altStack[last];
      Running(State(s.found.(nbAltLiterals := Some(1)),
                    s.altStack[last := v.(branches := CheckedAdd(v.branches, s.found.nbAltLiterals))]))
  }

  function Post(s: State, h: Hir): Run<State> {
    if !h.Alternation? then Running(s)
    else
      var r := AlternationIn(s);
      if r.Panicked? then Panicked
      else
        var last := |r.state.altStack| - 1;
        var top := r.state.altStack[last];
        Running(State(r.state.found.(nbAltLiterals := CheckedMul(top.prev, top.branches)), r.state.altStack[..last]))
  }

  function Analyser(dotAll: bool): Visitor<Run<State>> {
    Visitor(
      (r: Run<State>, h: Hir) =>
        if r.Panicked? then (r, Skip) else var (s, action) := Pre(dotAll, r.state, h); (Running(s), action),
      (r: Run<State>) => if r.Panicked? then r else AlternationIn(r.state),
      (r: Run<State>, h: Hir) => if r.Panicked? then r else Post(r.state, h))
  }

  // ----- The same visitor, updating its fields in place -----

  class HirAnalyser {
    const dotAll: bool
    var hasStartOrEndLine: bool
    var hasRepetitions: bool
    var hasGreedyRepetitions: bool
    var hasWordBoundaries: bool
    var hasClasses: bool
    var hasAlternations: bool
    var nbAltLiterals: Option<nat>
    var altStack: seq<AltStack>

    ghost function View(): State
      reads this
    {
      State(Findings(hasStartOrEndLine, hasRepetitions, hasGreedyRepetitions, hasWordBoundaries, hasClasses,
                     hasAlternations, nbAltLiterals), altStack)
    }

    constructor (dotAll: bool)
      ensures this.dotAll == dotAll && View() == State(NOTHING, [])
    {
      this.dotAll := dotAll;
      hasStartOrEndLine, hasRepetitions, hasGreedyRepetitions := false, false, false;
      hasWordBoundaries, hasClasses, hasAlternations := false, false, false;
      nbAltLiterals, altStack := Some(1), [];
    }

    method VisitPre(h: Hir) returns (action: Action)
      modifies this
      ensures (View(), action) == Pre(dotAll, old(View()), h)
    {
      match h {
        case Mask(_, _, negated) =>
          if nbAltLiterals.Some? {
            nbAltLiterals := Checked(nbAltLiterals.value * (if negated then 256 - 16 else 16));
          }
        case Assertion(kind) =>
          if kind.StartLine? || kind.EndLine? {
            hasStartOrEndLine := true;
          } else {
            hasWordBoundaries := true;
          }
          nbAltLiterals := None;
        case Repetition(_, _, greedy) =>
          hasRepetitions := true;
          if greedy {
            hasGreedyRepetitions := true;
          }
          nbAltLiterals := None;
        case Dot =>
          if nbAltLiterals.Some? {
            nbAltLiterals := Checked(nbAltLiterals.value * (if dotAll then 256 else 255));
          }
        case Class(bitmap) =>
          if nbAltLiterals.Some? {
            nbAltLiterals := Checked(nbAltLiterals.value * |bitmap|);
          }
          hasClasses := true;
        case Alternation(_) =>
          altStack := altStack + [AltStack(nbAltLiterals, Some(0))];
          nbAltLiterals := Some(1);
          hasAlternations := true;
        case _ =>
      }
      return Continue;
    }

    method VisitAlternationIn()
      requires altStack != []
      modifies this
      ensures Running(View()) == AlternationIn(old(View()))
    {
      var lastPos := |altStack| - 1;
      var v := altStack[lastPos];
      match (v.branches, nbAltLiterals) {
        case (Some(bc), Some(c)) => altStack := altStack[lastPos := v.(branches := Checked(bc + c))];
        case (Some(_), None) => altStack := altStack[lastPos := v.(branches := None)];
        case (None, _) => assert altStack == altStack[lastPos := v];
      }
      nbAltLiterals := Some(1);
    }

    method VisitPost(h: Hir)
      requires h.Alternation? ==> altStack != []
      modifies this
      ensures Running(View()) == Post(old(View()), h)
    {
      if h.Alternation? {
        VisitAlternationIn();
        var stack := altStack[|altStack| - 1];
        altStack := altStack[..|altStack| - 1];
        match (stack.prev, stack.branches) {
          case (Some(c), Some(bc)) => nbAltLiterals := Checked(c * bc);
          case _ => nbAltLiterals := None;
        }
      }
    }

    /** `finish` */
    method Finish() returns (r: Findings)
      ensures r == View().found
    {
      r := Findings(hasStartOrEndLine, hasRepetitions, hasGreedyRepetitions, hasWordBoundaries, hasClasses,
                    hasAlternations, nbAltLiterals);
    }
  }

  // ----- The findings after a node, by recursion on the node -----

  function After(dotAll: bool, h: Hir, f: Findings): Findings
    decreases h, 1
  {
    var g := Enter(dotAll, f, h);
    match h
    case Group(x) => After(dotAll, x, g)
    case Repetition(x, _, _) => After(dotAll, x, g)
    case Concat(hs) => AfterAll(dotAll, hs, g)
    case Alternation(hs) =>
      Close(f.nbAltLiterals, AfterBranches(dotAll, hs, Some(0), g))
    case _ => g
  }

  function AfterAll(dotAll: bool, hs: seq<Hir>, f: Findings): Findings
    decreases hs, 0
  {
    if hs == [] then f else AfterAll(dotAll, hs[1..], After(dotAll, hs[0], f))
  }

  /** Each branch starts from one literal; the result holds their sum, added to `sum`. */
  function AfterBranches(dotAll: bool, hs: seq<Hir>, sum: Option<nat>, f: Findings): Findings
    decreases hs, 0
  {
    if hs == [] then f.(nbAltLiterals := sum)
    else
      var g := After(dotAll, hs[0], f.(nbAltLiterals := Some(1)));
      AfterBranches(dotAll, hs[1..], CheckedAdd(sum, g.nbAltLiterals), g)
  }

  /** Leaving an alternation: its sum multiplies the count there was before it. */
  function Close(prev: Option<nat>, f: Findings): Findings {
    f.(nbAltLiterals := CheckedMul(prev, f.nbAltLiterals))
  }

  /** The stack of alternations never runs out, and is back to what it was after each node. */
  lemma {:induction false} WalkIsAfter(dotAll: bool, h: Hir, s: State)
    requires WellFormed(h)
    ensures Walk(Analyser(dotAll), h, Running(s)) == Running(State(After(dotAll, h, s.found), s.altStack))
    decreases h, 1
  {
    var s1 := Pre(dotAll, s, h).0;
    match h
    case Group(g) =>
      WalkOne(Analyser(dotAll), g, false, Running(s1));
      WalkIsAfter(dotAll, g, s1);
    case Repetition(g, _, _) =>
      WalkOne(Analyser(dotAll), g, false, Running(s1));
      WalkIsAfter(dotAll, g, s1);
    case Concat(hs) => WalkAllIsAfter(dotAll, hs, s1);
    case Alternation(hs) =>
      WalkIsAfter(dotAll, hs[0], s1);
      WalkBranchesIsAfter(dotAll, hs[1..], h, s.found.nbAltLiterals, Some(0), After(dotAll, hs[0], s1.found), s.altStack);
    case _ =>
  }

  lemma {:induction false} WalkAllIsAfter(dotAll: bool, hs: seq<Hir>, s: State)
    requires AllWellFormed(hs)
    ensures WalkMore(Analyser(dotAll), hs, false, Running(s)) == Running(State(AfterAll(dotAll, hs, s.found), s.altStack))
    ensures WalkAll(Analyser(dotAll), hs, false, Running(s)) == Running(State(AfterAll(dotAll, hs, s.found), s.altStack))
    decreases hs, 0
  {
    if hs != [] {
      WalkIsAfter(dotAll, hs[0], s);
      WalkAllIsAfter(dotAll, hs[1..], State(After(dotAll, hs[0], s.found), s.altStack));
    }
  }

  lemma {:induction false} WalkBranchesIsAfter(dotAll: bool, hs: seq<Hir>, h: Hir, prev: Option<nat>, sum: Option<nat>,
                                               f: Findings, stack: seq<AltStack>)
    requires AllWellFormed(hs) && h.Alternation?
    ensures Analyser(dotAll).post(
              WalkMore(Analyser(dotAll), hs, true, Running(State(f, stack + [AltStack(prev, sum)]))), h)
         == Running(State(Close(prev, AfterBranches(dotAll, hs, CheckedAdd(sum, f.nbAltLiterals), f)), stack))
    decreases hs, 0
  {
    var s := State(f, stack + [AltStack(prev, sum)]);
    var s1 := AlternationIn(s).state;
    assert s1.altStack == stack + [AltStack(prev, CheckedAdd(sum, f.nbAltLiterals))];
    if hs == [] {
      assert s1.altStack[..|s1.altStack| - 1] == stack;
    } else {
      WalkIsAfter(dotAll, hs[0], s1);
      WalkBranchesIsAfter(dotAll, hs[1..], h, prev, CheckedAdd(sum, f.nbAltLiterals),
                          After(dotAll, hs[0], s1.found), stack);
    }
  }

  // ----- What the findings mean -----

  function Flag(f: Findings, k: Kind): bool {
    match k
    case AnyClass => f.hasClasses
    case AnyAlternation => f.hasAlternations
    case AnyRepetition => f.hasRepetitions
    case GreedyRepetition => f.hasGreedyRepetitions
    case LineAssertion => f.hasStartOrEndLine
    case BoundaryAssertion => f.hasWordBoundaries
    case _ => false
  }

  predicate Flagged(k: Kind) {
    !k.Uncountable? && !k.NotLiteral? && !k.EmptyClass?
  }

  lemma EnterFlag(dotAll: bool, f: Findings, h: Hir, k: Kind)
    requires Flagged(k)
    ensures Flag(Enter(dotAll, f, h), k) == (Flag(f, k) || Is(h, k))
  {
  }

  lemma CountIsNoFlag(prev: Option<nat>, f: Findings, n: Option<nat>, k: Kind)
    ensures Flag(Close(prev, f), k) == Flag(f, k) && Flag(f.(nbAltLiterals := n), k) == Flag(f, k)
  {
  }

  /** A flag is raised exactly when the HIR holds a node of its kind. */
  lemma {:induction false} FlagAfter(dotAll: bool, h: Hir, f: Findings, k: Kind)
    requires Flagged(k)
    ensures Flag(After(dotAll, h, f), k) == (Flag(f, k) || Has(h, k))
    decreases h, 1
  {
    hide AfterAll, AfterBranches, HasAny, Enter, Flag, Is, Close;
    var g := Enter(dotAll, f, h);
    EnterFlag(dotAll, f, h, k);
    if h.Alternation? { CountIsNoFlag(f.nbAltLiterals, AfterBranches(dotAll, h.alts, Some(0), g), None, k); }
    match h
    case Group(x) => FlagAfter(dotAll, x, g, k);
    case Repetition(x, _, _) => FlagAfter(dotAll, x, g, k);
    case Concat(hs) => FlagAfterAll(dotAll, hs, g, k);
    case Alternation(hs) => FlagAfterBranches(dotAll, hs, Some(0), g, k);
    case _ =>
  }

  lemma {:induction false} FlagAfterAll(dotAll: bool, hs: seq<Hir>, f: Findings, k: Kind)
    requires Flagged(k)
    ensures Flag(AfterAll(dotAll, hs, f), k) == (Flag(f, k) || HasAny(hs, k))
    decreases hs, 0
  {
    hide After, Flag, Has;
    if hs != [] {
      FlagAfter(dotAll, hs[0], f, k);
      FlagAfterAll(dotAll, hs[1..], After(dotAll, hs[0], f), k);
    }
  }

  lemma {:induction false} FlagAfterBranches(dotAll: bool, hs: seq<Hir>, sum: Option<nat>, f: Findings, k: Kind)
    requires Flagged(k)
    ensures Flag(AfterBranches(dotAll, hs, sum, f), k) == (Flag(f, k) || HasAny(hs, k))
    decreases hs, 0
  {
    if hs != [] {
      var g := After(dotAll, hs[0], f.(nbAltLiterals := Some(1)));
      FlagAfter(dotAll, hs[0], f.(nbAltLiterals := Some(1)), k);
      FlagAfterBranches(dotAll, hs[1..], CheckedAdd(sum, g.nbAltLiterals), g, k);
    }
  }

  /** The number of words of the language, counted with multiplicity over the alternations. */
  function Count(h: Hir, dotAll: bool): nat
    decreases h, 1
  {
    match h
    case Group(g) => Count(g, dotAll)
    case Concat(hs) => CountProduct(hs, dotAll)
    case Alternation(hs) => CountSum(hs, dotAll)
    case _ => Width(h, dotAll)
  }

  function CountProduct(hs: seq<Hir>, dotAll: bool): nat
    decreases hs, 0
  {
    if hs == [] then 1 else Count(hs[0], dotAll) * CountProduct(hs[1..], dotAll)
  }

  function CountSum(hs: seq<Hir>, dotAll: bool): nat
    decreases hs, 0
  {
    if hs == [] then 0 else Count(hs[0], dotAll) + CountSum(hs[1..], dotAll)
  }

  lemma {:induction false} CountPositive(h: Hir, dotAll: bool)
    requires WellFormed(h) && !Has(h, EmptyClass)
    ensures Count(h, dotAll) > 0
    decreases h, 1
  {
    match h
    case Group(g) => CountPositive(g, dotAll);
    case Concat(hs) => CountProductPositive(hs, dotAll);
    case Alternation(hs) => CountPositive(hs[0], dotAll);
    case _ =>
  }

  lemma {:induction false} CountProductPositive(hs: seq<Hir>, dotAll: bool)
    requires AllWellFormed(hs) && !HasAny(hs, EmptyClass)
    ensures CountProduct(hs, dotAll) > 0
    decreases hs, 0
  {
    if hs != [] {
      CountPositive(hs[0], dotAll);
      CountProductPositive(hs[1..], dotAll);
      assert Count(hs[0], dotAll) * CountProduct(hs[1..], dotAll) > 0;
    }
  }

  /** From the count `a`, a part that holds `n` words leads to the count `b`: the product when it is set, and it is
      set when the part is countable, holds no empty class, and the product does not overflow. */
  ghost predicate Times(a: Option<nat>, lost: bool, empty: bool, n: nat, b: Option<nat>) {
    && (b.Some? ==> a.Some? && !lost && b.value == a.value * n)
    && (a.Some? && a.value > 0 && !lost && !empty && a.value * n <= USIZE_MAX ==> b.Some?)
    && (a.Some? && a.value <= USIZE_MAX && b.Some? ==> b.value <= USIZE_MAX)
  }

  /** The same for a sum. */
  ghost predicate Plus(a: Option<nat>, lost: bool, empty: bool, n: nat, b: Option<nat>) {
    && (b.Some? ==> a.Some? && !lost && b.value == a.value + n)
    && (a.Some? && !lost && !empty && a.value + n <= USIZE_MAX ==> b.Some?)
  }

  lemma TimesTimes(a: Option<nat>, l1: bool, e1: bool, n1: nat, b: Option<nat>, l2: bool, e2: bool, n2: nat, c: Option<nat>)
    requires Times(a, l1, e1, n1, b) && Times(b, l2, e2, n2, c)
    requires (!e1 ==> n1 > 0) && (!e2 ==> n2 > 0)
    ensures Times(a, l1 || l2, e1 || e2, n1 * n2, c)
  {
    if a.Some? { ProductFacts(a.value, n1, n2); }
  }

  lemma ProductFacts(x: nat, n: nat, m: nat)
    ensures x * (n * m) == (x * n) * m
    ensures m > 0 ==> x * n <= (x * n) * m
    ensures x > 0 && n > 0 ==> x * n > 0
  {
    if m > 0 { assert (x * n) * m == (x * n) * (m - 1) + x * n; }
  }

  /** An alternation multiplies the count before it by the sum of its branches. */
  lemma TimesClose(a: Option<nat>, lost: bool, empty: bool, n: nat, sum: Option<nat>)
    requires Plus(Some(0), lost, empty, n, sum)
    ensures Times(a, lost, empty, n, CheckedMul(a, sum))
  {
    if a.Some? && a.value > 0 { assert a.value * n == (a.value - 1) * n + n; }
  }

  lemma {:induction false} CountAfter(dotAll: bool, h: Hir, f: Findings)
    requires WellFormed(h)
    ensures Times(f.nbAltLiterals, Has(h, Uncountable), Has(h, EmptyClass), Count(h, dotAll),
                  After(dotAll, h, f).nbAltLiterals)
    decreases h, 1
  {
    var g := Enter(dotAll, f, h);
    match h
    case Group(x) => CountAfter(dotAll, x, g);
    case Repetition(x, _, _) => CountAfter(dotAll, x, g);
    case Concat(hs) => CountAfterAll(dotAll, hs, g);
    case Alternation(hs) =>
      CountAfterBranches(dotAll, hs, Some(0), g);
      TimesClose(f.nbAltLiterals, HasAny(hs, Uncountable), HasAny(hs, EmptyClass), CountSum(hs, dotAll),
                 AfterBranches(dotAll, hs, Some(0), g).nbAltLiterals);
    case _ =>
  }

  lemma {:induction false} CountAfterAll(dotAll: bool, hs: seq<Hir>, f: Findings)
    requires AllWellFormed(hs)
    ensures Times(f.nbAltLiterals, HasAny(hs, Uncountable), HasAny(hs, EmptyClass), CountProduct(hs, dotAll),
                  AfterAll(dotAll, hs, f).nbAltLiterals)
    decreases hs, 0
  {
    if hs != [] {
      var g := After(dotAll, hs[0], f);
      CountAfter(dotAll, hs[0], f);
      CountAfterAll(dotAll, hs[1..], g);
      if !Has(hs[0], EmptyClass) { CountPositive(hs[0], dotAll); }
      if !HasAny(hs[1..], EmptyClass) { CountProductPositive(hs[1..], dotAll); }
      TimesTimes(f.nbAltLiterals, Has(hs[0], Uncountable), Has(hs[0], EmptyClass), Count(hs[0], dotAll), g.nbAltLiterals,
                 HasAny(hs[1..], Uncountable), HasAny(hs[1..], EmptyClass), CountProduct(hs[1..], dotAll),
                 AfterAll(dotAll, hs, f).nbAltLiterals);
    }
  }

  lemma {:induction false} CountAfterBranches(dotAll: bool, hs: seq<Hir>, sum: Option<nat>, f: Findings)
    requires AllWellFormed(hs)
    ensures Plus(sum, HasAny(hs, Uncountable), HasAny(hs, EmptyClass), CountSum(hs, dotAll),
                 AfterBranches(dotAll, hs, sum, f).nbAltLiterals)
    decreases hs, 0
  {
    if hs != [] {
      var f1 := f.(nbAltLiterals := Some(1));
      var g := After(dotAll, hs[0], f1);
      CountAfter(dotAll, hs[0], f1);
      CountAfterBranches(dotAll, hs[1..], CheckedAdd(sum, g.nbAltLiterals), g);
    }
  }

  /** What the analysis ends with. */
  lemma AfterSays(h: Hir, dotAll: bool)
    requires WellFormed(h)
    ensures var r := After(dotAll, h, NOTHING);
            && (r.hasStartOrEndLine <==> Has(h, LineAssertion)) && (r.hasWordBoundaries <==> Has(h, BoundaryAssertion))
            && (r.hasRepetitions <==> Has(h, AnyRepetition)) && (r.hasGreedyRepetitions <==> Has(h, GreedyRepetition))
            && (r.hasClasses <==> Has(h, AnyClass)) && (r.hasAlternations <==> Has(h, AnyAlternation))
            && (r.nbAltLiterals.Some? ==> !Has(h, Uncountable) && r.nbAltLiterals.value == Count(h, dotAll))
            && (!Has(h, EmptyClass) ==>
                  (r.nbAltLiterals.Some? <==> !Has(h, Uncountable) && Count(h, dotAll) <= USIZE_MAX))
  {
    FlagAfter(dotAll, h, NOTHING, LineAssertion);
    FlagAfter(dotAll, h, NOTHING, BoundaryAssertion);
    FlagAfter(dotAll, h, NOTHING, AnyRepetition);
    FlagAfter(dotAll, h, NOTHING, GreedyRepetition);
    FlagAfter(dotAll, h, NOTHING, AnyClass);
    FlagAfter(dotAll, h, NOTHING, AnyAlternation);
    CountAfter(dotAll, h, NOTHING);
  }
}
