/** What the compilation of a condition leaves in the compiler of its rule: the variables it uses, the wildcards on
    rules, and how deep it went (`compiler/rule.rs`). */
module RuleCompiling {
  import opened Base
  import opened Values
  import opened Types
  import opened Sources
  import opened Expressions
  import opened Compiling
  import Scoping

  /** The wildcards on rules, in order, and the variables used. */
  datatype Effects = Effects(wildcards: seq<string>, uses: set<nat>)

  const NOTHING: Effects := Effects([], {})

  function Join(a: Effects, b: Effects): Effects {
    Effects(a.wildcards + b.wildcards, a.uses + b.uses)
  }

  function Sum(es: seq<Effects>): Effects {
    if es == [] then NOTHING else Join(es[0], Sum(es[1..]))
  }

  lemma JoinIsMonoid(a: Effects, b: Effects, c: Effects)
    ensures Join(Join(a, b), c) == Join(a, Join(b, c)) && Join(a, NOTHING) == a && Join(NOTHING, a) == a
  {
    assert (a.wildcards + b.wildcards) + c.wildcards == a.wildcards + (b.wildcards + c.wildcards);
    assert (a.uses + b.uses) + c.uses == a.uses + (b.uses + c.uses);
    assert a.wildcards + [] == a.wildcards == [] + a.wildcards;
  }

  lemma {:induction false} SumAppend(es: seq<Effects>, es': seq<Effects>)
    ensures Sum(es + es') == Join(Sum(es), Sum(es'))
    decreases |es|
  {
    if es == [] {
      assert [] + es' == es';
      JoinIsMonoid(Sum(es'), NOTHING, NOTHING);
    } else {
      assert (es + es')[1..] == es[1..] + es';
      SumAppend(es[1..], es');
      JoinIsMonoid(es[0], Sum(es[1..]), Sum(es'));
    }
  }

  // ----- The parts of a condition -----

  /** A part of a condition, with the names bound around it. */
  datatype Part = Part(e: Source, scope: set<string>)

  function NumberOfSelection(selection: SourceSelection): (es: seq<Source>)
    ensures forall j :: 0 <= j < |es| ==> es[j] < selection
  {
    if selection.NumberOf? then [selection.number] else []
  }

  function PartsOfIterator(iter: SourceIterator): (es: seq<Source>)
    ensures forall j :: 0 <= j < |es| ==> es[j] < iter
  {
    match iter
    case Iterable(id) => Arguments(id, 0)
    case Between(from, to) => [from, to]
    case Listed(items) => items
  }

  /** The conditions in the body of a `for` on variables. */
  function TurnParts(e: Source): (es: seq<Source>)
    requires IsForVariables(e)
    ensures forall j :: 0 <= j < |es| ==> es[j] < e
  {
    match e
    case For(_, _, each) => if each.Some? then [each.value] else []
    case ForIn(_, _, from, to) => [from, to]
    case ForAt(_, _, offset) => [offset]
  }

  function In(scope: set<string>, es: seq<Source>): (ps: seq<Part>)
    ensures |ps| == |es| && forall j :: 0 <= j < |ps| ==> ps[j] == Part(es[j], scope)
  {
    seq(|es|, j requires 0 <= j < |es| => Part(es[j], scope))
  }

  function NameSet(names: seq<string>): set<string> {
    set n | n in names
  }

  /** The conditions directly inside a condition, in the order in which they are compiled. The path of a name that
      stands for a rule or an external symbol is not looked at. */
  function PartsOf(k: Context, scope: set<string>, e: Source): (ps: seq<Part>)
    ensures forall j :: 0 <= j < |ps| ==> ps[j].e < e
  {
    match e
    case For(selection, _, each) =>
      In(scope, NumberOfSelection(selection)) + In(scope, if each.Some? then [each.value] else [])
    case ForIn(selection, _, from, to) => In(scope, [from, to]) + In(scope, NumberOfSelection(selection))
    case ForAt(selection, _, offset) => In(scope, [offset]) + In(scope, NumberOfSelection(selection))
    case ForIdentifiers(selection, names, iter, body) =>
      In(scope, NumberOfSelection(selection)) + In(scope, PartsOfIterator(iter)) + [Part(body, scope + NameSet(names))]
    case ForRules(selection, _) => In(scope, NumberOfSelection(selection))
    case Named(id) => if id.name in scope || id.name in k.modules then In(scope, Arguments(id, 0)) else []
    case _ => In(scope, Sources.Operands(e))
  }

  // ----- Effects and depth -----

  function WildcardsIn(patterns: seq<Pattern>): seq<string> {
    if patterns == [] then []
    else (if patterns[0].isWildcard then [patterns[0].name] else []) + WildcardsIn(patterns[1..])
  }

  /** The effects of the condition itself, without those of its parts. */
  function OwnEffects(k: Context, e: Source): Effects {
    if IsOnVariable(e) && VariableNamed(k, e.name).Some? && VariableNamed(k, e.name).value.Some? then
      Effects([], {VariableNamed(k, e.name).value.value})
    else if IsForVariables(e) && VariablesOf(k.variables, e.patterns).Some? then
      Effects([], set i | i in VariablesOf(k.variables, e.patterns).value)
    else if e.ForRules? then Effects(WildcardsIn(e.patterns), {})
    else NOTHING
  }

  function EffectsOf(k: Context, scope: set<string>, e: Source): Effects
    decreases e, 1
  {
    Join(Sum(EffectsOfParts(k, scope, e)), OwnEffects(k, e))
  }

  function EffectsOfParts(k: Context, scope: set<string>, e: Source): (es: seq<Effects>)
    ensures |es| == |PartsOf(k, scope, e)|
    ensures forall j :: 0 <= j < |es| ==>
              es[j] == EffectsOf(k, PartsOf(k, scope, e)[j].scope, PartsOf(k, scope, e)[j].e)
    decreases e, 0
  {
    var ps := PartsOf(k, scope, e);
    seq(|ps|, j requires 0 <= j < |ps| => EffectsOf(k, ps[j].scope, ps[j].e))
  }

  function Max(ns: seq<nat>): (m: nat)
    ensures forall n :: n in ns ==> n <= m
    ensures m == 0 || m in ns
  {
    if ns == [] then 0
    else
      var rest := Max(ns[1..]);
      assert ns == [ns[0]] + ns[1..];
      if ns[0] > rest then ns[0] else rest
  }

  /** How many conditions are nested, at most. */
  function Depth(k: Context, scope: set<string>, e: Source): nat
    decreases e, 1
  {
    1 + Max(DepthsOfParts(k, scope, e))
  }

  function DepthsOfParts(k: Context, scope: set<string>, e: Source): (ns: seq<nat>)
    ensures |ns| == |PartsOf(k, scope, e)|
    ensures forall j :: 0 <= j < |ns| ==> ns[j] == Depth(k, PartsOf(k, scope, e)[j].scope, PartsOf(k, scope, e)[j].e)
    decreases e, 0
  {
    var ps := PartsOf(k, scope, e);
    seq(|ps|, j requires 0 <= j < |ps| => Depth(k, ps[j].scope, ps[j].e))
  }

  // ----- The depth is bounded -----

  /** Every part of a condition that compiles compiles one level deeper, with the names of its scope bound. */
  ghost predicate PartsCompile(k: Context, bound: Bound, depth: nat, e: Source) {
    forall p :: p in PartsOf(k, bound.Keys, e) ==> PartCompiles(k, depth, p)
  }

  ghost predicate PartCompiles(k: Context, depth: nat, p: Part) {
    exists inner: Bound :: inner.Keys == p.scope && Compile(k, inner, depth, p.e).Some?
  }

  lemma SourceCompiles(k: Context, bound: Bound, depth: nat, e: Source)
    requires Compile(k, bound, depth, e).Some?
    ensures PartCompiles(k, depth, Part(e, bound.Keys))
  {
  }

  lemma NameSetTail(names: seq<string>)
    requires names != []
    ensures NameSet(names) == {names[0]} + NameSet(names[1..])
  {
    assert names == [names[0]] + names[1..];
  }

  lemma {:induction false} AddedKeys(bound: Bound, names: seq<string>, tys: seq<ModuleType>)
    requires AddAllBound(bound, names, tys).Some?
    ensures AddAllBound(bound, names, tys).value.Keys == bound.Keys + NameSet(names)
    decreases |names|
  {
    if names == [] {
      assert NameSet(names) == {};
    } else {
      var one := AddBound(bound, names[0], tys[0]).value;
      AddedKeys(one, names[1..], tys[1..]);
      NameSetTail(names);
      OneMoreKey(bound, one, names[0], tys[0], NameSet(names[1..]));
    }
  }

  lemma OneMoreKey(bound: Bound, one: Bound, name: string, ty: ModuleType, rest: set<string>)
    requires AddBound(bound, name, ty) == Some(one)
    ensures one.Keys + rest == bound.Keys + ({name} + rest)
  {
    assert one.Keys == bound.Keys + {name};
  }

  /** The sub-conditions `es`, in the scope of the condition. */
  lemma AllCompile(k: Context, bound: Bound, depth: nat, es: seq<Source>)
    requires forall j :: 0 <= j < |es| ==> Compile(k, bound, depth, es[j]).Some?
    ensures forall p :: p in In(bound.Keys, es) ==> PartCompiles(k, depth, p)
  {
    forall p | p in In(bound.Keys, es) ensures PartCompiles(k, depth, p) {
      var j :| 0 <= j < |es| && p == Part(es[j], bound.Keys);
      SourceCompiles(k, bound, depth, es[j]);
    }
  }

  lemma SelectionCompiles(k: Context, bound: Bound, depth: nat, selection: SourceSelection)
    requires CompileSelection(k, bound, depth, selection).Some?
    ensures forall p :: p in In(bound.Keys, NumberOfSelection(selection)) ==> PartCompiles(k, depth, p)
  {
    AllCompile(k, bound, depth, NumberOfSelection(selection));
  }

  lemma UseCompiles(k: Context, bound: Bound, depth: nat, id: Identifier)
    requires CompileUse(k, bound, depth, id).Some?
    ensures forall j :: 0 <= j < |Arguments(id, 0)| ==> Compile(k, bound, depth, Arguments(id, 0)[j]).Some?
  {
    if id.name in bound || id.path[0].field !in k.modules[id.name].statics {
      Scoping.ArgumentsCompile(k, bound, depth, id, 0);
    } else {
      Scoping.ArgumentsCompile(k, bound, depth, id, 1);
      assert StepArguments(id, 0) == [] && Arguments(id, 0) == Arguments(id, 1);
    }
  }

  lemma IteratorCompiles(k: Context, bound: Bound, depth: nat, iter: SourceIterator)
    requires CompileIterator(k, bound, depth, iter).Some?
    ensures forall p :: p in In(bound.Keys, PartsOfIterator(iter)) ==> PartCompiles(k, depth, p)
  {
    if iter.Iterable? { UseCompiles(k, bound, depth, iter.id); }
    AllCompile(k, bound, depth, PartsOfIterator(iter));
  }

  lemma ThreeGroups(k: Context, depth: nat, a: seq<Part>, b: seq<Part>, p: Part)
    requires forall q :: q in a ==> PartCompiles(k, depth, q)
    requires forall q :: q in b ==> PartCompiles(k, depth, q)
    requires PartCompiles(k, depth, p)
    ensures forall q :: q in a + b + [p] ==> PartCompiles(k, depth, q)
  {
  }

  lemma LoopPartsCompile(k: Context, bound: Bound, depth: nat, e: Source, tys: seq<ModuleType>, inner: Bound)
    requires e.ForIdentifiers? && CompileSelection(k, bound, depth, e.selection).Some?
    requires CompileIterator(k, bound, depth, e.iter).Some? && AddAllBound(bound, e.names, tys) == Some(inner)
    requires Compile(k, inner, depth, e.body).Some?
    ensures PartsCompile(k, bound, depth, e)
  {
    SelectionCompiles(k, bound, depth, e.selection);
    IteratorCompiles(k, bound, depth, e.iter);
    AddedKeys(bound, e.names, tys);
    SourceCompiles(k, inner, depth, e.body);
    ThreeGroups(k, depth, In(bound.Keys, NumberOfSelection(e.selection)), In(bound.Keys, PartsOfIterator(e.iter)),
                Part(e.body, bound.Keys + NameSet(e.names)));
  }

  lemma TurnPartsCompile(k: Context, bound: Bound, depth: nat, e: Source)
    requires IsForVariables(e) && CompileSelection(k, bound, depth, e.selection).Some?
    requires CompileTurn(k, bound, depth, e).Some?
    ensures PartsCompile(k, bound, depth, e)
  {
    SelectionCompiles(k, bound, depth, e.selection);
    match e
    case For(_, _, each) => AllCompile(k, bound, depth, if each.Some? then [each.value] else []);
    case ForIn(_, _, from, to) => AllCompile(k, bound, depth, [from, to]);
    case ForAt(_, _, offset) => AllCompile(k, bound, depth, [offset]);
  }

  lemma AllPartsCompile(k: Context, bound: Bound, depth: nat, e: Source)
    requires Compile(k, bound, depth, e).Some?
    ensures PartsCompile(k, bound, depth + 1, e)
  {
    var d := depth + 1;
    if Sources.IsOperator(e) {
      AllCompile(k, bound, d, Sources.Operands(e));
    } else if IsForVariables(e) {
      TurnPartsCompile(k, bound, d, e);
    } else {
      match e
      case ForIdentifiers(_, names, iter, _) =>
        var tys := CompileIterator(k, bound, d, iter).value.tys;
        LoopPartsCompile(k, bound, d, e, tys, AddAllBound(bound, names, tys).value);
      case ForRules(selection, _) => SelectionCompiles(k, bound, d, selection);
      case Named(id) =>
        if id.name in bound || id.name in k.modules {
          UseCompiles(k, bound, d, id);
          AllCompile(k, bound, d, Arguments(id, 0));
        }
    }
  }

  lemma Shallow(k: Context, bound: Bound, depth: nat, e: Source)
    requires Compile(k, bound, depth, e).Some?
    ensures depth + 1 < k.maxDepth
  {
  }

  /** A condition is compiled only if it stays under the limit of depth. */
  lemma {:induction false} DepthBounded(k: Context, bound: Bound, depth: nat, e: Source)
    requires Compile(k, bound, depth, e).Some?
    ensures depth + Depth(k, bound.Keys, e) < k.maxDepth
    decreases e, 1
  {
    Shallow(k, bound, depth, e);
    AllPartsCompile(k, bound, depth, e);
    PartsBounded(k, bound, depth + 1, e, DepthsOfParts(k, bound.Keys, e));
  }

  lemma {:induction false} PartsBounded(k: Context, bound: Bound, depth: nat, e: Source, ns: seq<nat>)
    requires PartsCompile(k, bound, depth, e) && ns == DepthsOfParts(k, bound.Keys, e)
    ensures forall n :: n in ns ==> depth + n < k.maxDepth
    decreases e, 0
  {
    var ps := PartsOf(k, bound.Keys, e);
    forall j | 0 <= j < |ns| ensures depth + ns[j] < k.maxDepth {
      assert PartCompiles(k, depth, ps[j]);
      var inner: Bound :| inner.Keys == ps[j].scope && Compile(k, inner, depth, ps[j].e).Some?;
      DepthBounded(k, inner, depth, ps[j].e);
    }
  }

  // ----- Effects of lists -----

  function EffectsIn(k: Context, scope: set<string>, es: seq<Source>): (r: seq<Effects>)
    ensures |r| == |es| && forall j :: 0 <= j < |r| ==> r[j] == EffectsOf(k, scope, es[j])
  {
    seq(|es|, j requires 0 <= j < |es| => EffectsOf(k, scope, es[j]))
  }

  /** The effects of some conditions of the same scope, in order. */
  function SumIn(k: Context, scope: set<string>, es: seq<Source>): Effects {
    Sum(EffectsIn(k, scope, es))
  }

  lemma Pointwise<T, U>(f: T -> U, xs: seq<T>, ys: seq<T>, us: seq<U>, vs: seq<U>, all: seq<U>)
    requires |us| == |xs| && forall j :: 0 <= j < |xs| ==> us[j] == f(xs[j])
    requires |vs| == |ys| && forall j :: 0 <= j < |ys| ==> vs[j] == f(ys[j])
    requires |all| == |xs + ys| && forall j :: 0 <= j < |all| ==> all[j] == f((xs + ys)[j])
    ensures all == us + vs
  {
  }

  lemma SumInAppend(k: Context, scope: set<string>, es: seq<Source>, es': seq<Source>)
    ensures SumIn(k, scope, es + es') == Join(SumIn(k, scope, es), SumIn(k, scope, es'))
  {
    Pointwise(e => EffectsOf(k, scope, e), es, es',
              EffectsIn(k, scope, es), EffectsIn(k, scope, es'), EffectsIn(k, scope, es + es'));
    SumAppend(EffectsIn(k, scope, es), EffectsIn(k, scope, es'));
  }

  lemma SumOne(e: Effects)
    ensures Sum([e]) == e && Sum([]) == NOTHING
  {
    assert [e][1..] == [];
    JoinIsMonoid(e, NOTHING, NOTHING);
  }

  lemma SumInOne(k: Context, scope: set<string>, e: Source)
    ensures SumIn(k, scope, [e]) == EffectsOf(k, scope, e) && SumIn(k, scope, []) == NOTHING
  {
    var one, none := EffectsIn(k, scope, [e]), EffectsIn(k, scope, []);
    assert one[0] == EffectsOf(k, scope, [e][0]);
    assert one == [one[0]] && none == [];
    SumOne(one[0]);
  }

  lemma EffectsAre(k: Context, scope: set<string>, e: Source, es: seq<Source>)
    requires PartsOf(k, scope, e) == In(scope, es)
    ensures EffectsOf(k, scope, e) == Join(SumIn(k, scope, es), OwnEffects(k, e))
  {
    assert EffectsOfParts(k, scope, e) == EffectsIn(k, scope, es);
  }

  lemma InAppend(scope: set<string>, es: seq<Source>, es': seq<Source>)
    ensures In(scope, es) + In(scope, es') == In(scope, es + es')
  {
  }

  lemma EffectsSum(k: Context, scope: set<string>, e: Source)
    ensures EffectsOf(k, scope, e) == Join(Sum(EffectsOfParts(k, scope, e)), OwnEffects(k, e))
  {
  }

  lemma LoopParts(k: Context, scope: set<string>, e: Source, outer: seq<Source>)
    requires e.ForIdentifiers? && outer == NumberOfSelection(e.selection) + PartsOfIterator(e.iter)
    ensures EffectsOfParts(k, scope, e)
         == EffectsIn(k, scope, outer) + [EffectsOf(k, scope + NameSet(e.names), e.body)]
  {
    hide EffectsOf;
    InAppend(scope, NumberOfSelection(e.selection), PartsOfIterator(e.iter));
    assert PartsOf(k, scope, e) == In(scope, outer) + [Part(e.body, scope + NameSet(e.names))];
  }

  /** The parts of a loop on identifiers: its body is in a wider scope. */
  lemma LoopEffects(k: Context, scope: set<string>, e: Source)
    requires e.ForIdentifiers?
    ensures EffectsOf(k, scope, e)
         == Join(Join(SumIn(k, scope, NumberOfSelection(e.selection)), SumIn(k, scope, PartsOfIterator(e.iter))),
                 EffectsOf(k, scope + NameSet(e.names), e.body))
  {
    hide EffectsOf, Sum;
    var outer := NumberOfSelection(e.selection) + PartsOfIterator(e.iter);
    var last := EffectsOf(k, scope + NameSet(e.names), e.body);
    LoopParts(k, scope, e, outer);
    SumAppend(EffectsIn(k, scope, outer), [last]);
    SumOne(last);
    SumInAppend(k, scope, NumberOfSelection(e.selection), PartsOfIterator(e.iter));
    EffectsSum(k, scope, e);
    JoinIsMonoid(Join(SumIn(k, scope, outer), last), NOTHING, NOTHING);
  }
}
