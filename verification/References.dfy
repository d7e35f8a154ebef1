/** The rules that a compiled condition refers to, and those that its source reads (`compiler/expression.rs`). */
module References {
  import opened Base
  import opened Types
  import opened Sources
  import opened Expressions
  import opened Compiling
  import opened RuleCompiling
  import Scoping
  import Soundness

  // ----- References of an expression -----

  /** Do all the references to rules stay below `n`? */
  ghost predicate RefsBelow(e: Expr, n: nat)
    decreases e, 1
  {
    if Expressions.IsOperator(e) then
      (e.RuleResult? ==> e.index < n) && forall j :: 0 <= j < |Expressions.Operands(e)| ==> RefsBelow(Expressions.Operands(e)[j], n)
    else
      match e
      case For(selection, _, body) => SelectionBelow(selection, n) && RefsBelow(body, n)
      case ForIdentifiers(selection, iter, body) => SelectionBelow(selection, n) && IteratorBelow(iter, n) && RefsBelow(body, n)
      case ForRules(selection, rules, _) => SelectionBelow(selection, n) && forall j :: 0 <= j < |rules| ==> rules[j] < n
      case Module(use) => AllBelow(use.arguments, n)
  }

  ghost predicate AllBelow(es: seq<Expr>, n: nat)
    decreases es, 0
  {
    forall j :: 0 <= j < |es| ==> RefsBelow(es[j], n)
  }

  ghost predicate SelectionBelow(selection: ForSelection, n: nat)
    decreases selection, 0
  {
    selection.SelectExpr? ==> RefsBelow(selection.number, n)
  }

  ghost predicate IteratorBelow(iter: ForIterator, n: nat)
    decreases iter, 0
  {
    match iter
    case ModuleIterator(use) => AllBelow(use.arguments, n)
    case Range(from, to) => RefsBelow(from, n) && RefsBelow(to, n)
    case List(items) => AllBelow(items, n)
  }

  // ----- What a source reads -----

  /** Do all the rules of the set that have an index have one below `n`? */
  predicate IndexesBelow(rules: seq<Option<nat>>, n: nat) {
    forall j :: 0 <= j < |rules| && rules[j].Some? ==> rules[j].value < n
  }

  /** The condition itself, without its parts: the rules of its set, or the rule that its name stands for when neither a
      bound name nor a module hides it. */
  predicate OwnReadsBelow(k: Context, scope: set<string>, e: Source, n: nat) {
    match e
    case ForRules(_, patterns) => RulesOf(k.rules, patterns).Some? ==> IndexesBelow(RulesOf(k.rules, patterns).value, n)
    case Named(id) =>
      id.name in scope || id.name in k.modules ||
      (Find(k.rules, id.name).Some? ==> IndexesBelow([Find(k.rules, id.name).value], n))
    case _ => true
  }

  /** Does the condition read no result of a rule but those below `n`? With zero: none of its names and sets of rules
      stands for a rule that has an index. */
  predicate ReadsBelow(k: Context, scope: set<string>, e: Source, n: nat)
    decreases e
  {
    var ps := PartsOf(k, scope, e);
    OwnReadsBelow(k, scope, e, n) && forall j :: 0 <= j < |ps| ==> ReadsBelow(k, ps[j].scope, ps[j].e, n)
  }

  predicate SourcesBelow(k: Context, scope: set<string>, es: seq<Source>, n: nat) {
    forall j :: 0 <= j < |es| ==> ReadsBelow(k, scope, es[j], n)
  }

  predicate PartsBelow(k: Context, ps: seq<Part>, n: nat) {
    forall j :: 0 <= j < |ps| ==> ReadsBelow(k, ps[j].scope, ps[j].e, n)
  }

  lemma InBelow(k: Context, scope: set<string>, es: seq<Source>, n: nat)
    ensures PartsBelow(k, In(scope, es), n) <==> SourcesBelow(k, scope, es, n)
  {
    hide ReadsBelow;
    var ps := In(scope, es);
    if PartsBelow(k, ps, n) {
      forall j | 0 <= j < |es| ensures ReadsBelow(k, scope, es[j], n) { assert ps[j] == Part(es[j], scope); }
    }
  }

  lemma PartsBelowAppend(k: Context, ps: seq<Part>, qs: seq<Part>, n: nat)
    ensures PartsBelow(k, ps + qs, n) <==> PartsBelow(k, ps, n) && PartsBelow(k, qs, n)
  {
    hide ReadsBelow;
    if PartsBelow(k, ps + qs, n) {
      forall j | 0 <= j < |ps| ensures ReadsBelow(k, ps[j].scope, ps[j].e, n) { assert (ps + qs)[j] == ps[j]; }
      forall j | 0 <= j < |qs| ensures ReadsBelow(k, qs[j].scope, qs[j].e, n) { assert (ps + qs)[|ps| + j] == qs[j]; }
    }
  }

  lemma ReadsUnfolds(k: Context, scope: set<string>, e: Source, n: nat)
    ensures ReadsBelow(k, scope, e, n) <==> OwnReadsBelow(k, scope, e, n) && PartsBelow(k, PartsOf(k, scope, e), n)
  {
  }

  lemma OperatorReads(k: Context, scope: set<string>, e: Source, n: nat)
    requires Sources.IsOperator(e)
    ensures ReadsBelow(k, scope, e, n) <==> SourcesBelow(k, scope, Sources.Operands(e), n)
  {
    hide ReadsBelow;
    ReadsUnfolds(k, scope, e, n);
    InBelow(k, scope, Sources.Operands(e), n);
  }

  lemma ForReads(k: Context, scope: set<string>, e: Source, n: nat)
    requires IsForVariables(e)
    ensures ReadsBelow(k, scope, e, n)
       <==> SourcesBelow(k, scope, NumberOfSelection(e.selection), n) && SourcesBelow(k, scope, TurnParts(e), n)
  {
    hide ReadsBelow;
    var number, turn := NumberOfSelection(e.selection), TurnParts(e);
    ReadsUnfolds(k, scope, e, n);
    InBelow(k, scope, number, n);
    InBelow(k, scope, turn, n);
    PartsBelowAppend(k, In(scope, number), In(scope, turn), n);
    PartsBelowAppend(k, In(scope, turn), In(scope, number), n);
  }

  lemma LoopReads(k: Context, scope: set<string>, e: Source, n: nat)
    requires e.ForIdentifiers?
    ensures ReadsBelow(k, scope, e, n)
       <==> && SourcesBelow(k, scope, NumberOfSelection(e.selection), n)
            && SourcesBelow(k, scope, PartsOfIterator(e.iter), n)
            && ReadsBelow(k, scope + NameSet(e.names), e.body, n)
  {
    hide ReadsBelow;
    var number, items, last := NumberOfSelection(e.selection), PartsOfIterator(e.iter), Part(e.body, scope + NameSet(e.names));
    ReadsUnfolds(k, scope, e, n);
    InBelow(k, scope, number, n);
    InBelow(k, scope, items, n);
    PartsBelowAppend(k, In(scope, number), In(scope, items), n);
    PartsBelowAppend(k, In(scope, number) + In(scope, items), [last], n);
    assert PartsBelow(k, [last], n) <==> ReadsBelow(k, last.scope, last.e, n) by {
      if PartsBelow(k, [last], n) { assert [last][0] == last; }
    }
  }

  // ----- A compiled condition refers to the rules that its source reads -----

  predicate RulesBelow(rules: seq<(string, Option<nat>)>, n: nat) {
    forall j :: 0 <= j < |rules| && rules[j].1.Some? ==> rules[j].1.value < n
  }

  lemma BuildShape(k: Context, e: Source, xs: seq<Typed>)
    requires Sources.IsOperator(e) && |xs| == |Sources.Operands(e)| && Build(k, e, xs).Some?
    ensures var x := Build(k, e, xs).value.e;
            Expressions.IsOperator(x) && !x.RuleResult? && Expressions.Operands(x) == Exprs(xs)
  {
    if IsOnVariable(e) {
      Scoping.OnVariableShape(e, VariableNamed(k, e.name).value, xs);
    } else {
      Soundness.PlainShape(k, e, xs);
    }
  }

  lemma OperatorRefs(x: Expr, n: nat)
    requires Expressions.IsOperator(x) && !x.RuleResult?
    ensures RefsBelow(x, n) <==> AllBelow(Expressions.Operands(x), n)
  {
  }

  /** The sources and what they compile to, one by one. */
  lemma {:induction false} ListRefs(k: Context, bound: Bound, depth: nat, es: seq<Source>, xs: seq<Typed>, n: nat,
                                    top: Source)
    requires |xs| == |es| && forall j :: 0 <= j < |es| ==> Compile(k, bound, depth, es[j]) == Some(xs[j])
    requires forall j :: 0 <= j < |es| ==> es[j] < top
    ensures AllBelow(Exprs(xs), n) <==> SourcesBelow(k, bound.Keys, es, n)
    decreases top, 0
  {
    hide Compile, RefsBelow, ReadsBelow;
    forall j | 0 <= j < |es| ensures RefsBelow(Exprs(xs)[j], n) <==> ReadsBelow(k, bound.Keys, es[j], n) {
      CompiledRefsIff(k, bound, depth, es[j], n);
    }
    if SourcesBelow(k, bound.Keys, es, n) {
      forall j | 0 <= j < |xs| ensures RefsBelow(Exprs(xs)[j], n) { assert ReadsBelow(k, bound.Keys, es[j], n); }
    }
  }

  /** A compiled condition refers to a rule from `n` on exactly when its source reads one. */
  lemma {:induction false} CompiledRefsIff(k: Context, bound: Bound, depth: nat, e: Source, n: nat)
    requires Compile(k, bound, depth, e).Some?
    ensures RefsBelow(Compile(k, bound, depth, e).value.e, n) <==> ReadsBelow(k, bound.Keys, e, n)
    decreases e, 5
  {
    hide RefsBelow, ReadsBelow, CompileSelection, CompileTurn, CompileName, CompileLoop, Build;
    var d := depth + 1;
    if Sources.IsOperator(e) {
      var xs := CompileOperands(k, bound, d, e).value;
      ListRefs(k, bound, d, Sources.Operands(e), xs, n, e);
      BuildShape(k, e, xs);
      OperatorRefs(Build(k, e, xs).value.e, n);
      OperatorReads(k, bound.Keys, e, n);
    } else if IsForVariables(e) {
      ForRefs(k, bound, d, e, n);
      ForReads(k, bound.Keys, e, n);
    } else {
      match e
      case ForIdentifiers(_, _, _, _) => LoopRefs(k, bound, d, e, n);
      case ForRules(selection, patterns) => RuleSetRefs(k, bound, d, e, n);
      case Named(id) => NameRefs(k, bound, d, e, n);
    }
  }

  lemma {:induction false} SelectionRefs(k: Context, bound: Bound, depth: nat, selection: SourceSelection, n: nat, top: Source)
    requires CompileSelection(k, bound, depth, selection).Some? && selection < top
    ensures SelectionBelow(CompileSelection(k, bound, depth, selection).value, n)
       <==> SourcesBelow(k, bound.Keys, NumberOfSelection(selection), n)
    decreases top, 0
  {
    hide Compile, RefsBelow, ReadsBelow;
    var es := NumberOfSelection(selection);
    if selection.NumberOf? {
      CompiledRefsIff(k, bound, depth, selection.number, n);
      assert es[0] == selection.number;
    }
  }

  lemma {:induction false} ForRefs(k: Context, bound: Bound, depth: nat, e: Source, n: nat)
    requires IsForVariables(e)
    requires CompileSelection(k, bound, depth, e.selection).Some? && CompileTurn(k, bound, depth, e).Some?
    requires VariablesOf(k.variables, e.patterns).Some?
    ensures RefsBelow(Expr.For(CompileSelection(k, bound, depth, e.selection).value,
                               VariablesOf(k.variables, e.patterns).value,
                               CompileTurn(k, bound, depth, e).value), n)
       <==> SourcesBelow(k, bound.Keys, NumberOfSelection(e.selection), n) && SourcesBelow(k, bound.Keys, TurnParts(e), n)
    decreases e, 1
  {
    hide Compile, CompileSelection, CompileTurn, ReadsBelow;
    SelectionRefs(k, bound, depth, e.selection, n, e);
    TurnRefs(k, bound, depth, e, n);
  }

  lemma PairRefs(x: Expr, y: Expr, n: nat)
    ensures RefsBelow(Expr.VariableIn(None, x, y), n) <==> RefsBelow(x, n) && RefsBelow(y, n)
    ensures RefsBelow(Expr.VariableAt(None, x), n) <==> RefsBelow(x, n)
    ensures RefsBelow(Expr.Variable(None), n)
  {
    hide RefsBelow;
    var pair, one := Expr.VariableIn(None, x, y), Expr.VariableAt(None, x);
    OperatorRefs(pair, n);
    OperatorRefs(one, n);
    OperatorRefs(Expr.Variable(None), n);
    assert Expressions.Operands(pair) == [x, y] && Expressions.Operands(one) == [x];
    assert [x, y][0] == x && [x, y][1] == y && [x][0] == x;
  }

  lemma {:induction false} TurnRefs(k: Context, bound: Bound, depth: nat, e: Source, n: nat)
    requires IsForVariables(e) && CompileTurn(k, bound, depth, e).Some?
    ensures RefsBelow(CompileTurn(k, bound, depth, e).value, n) <==> SourcesBelow(k, bound.Keys, TurnParts(e), n)
    decreases e, 0
  {
    hide Compile, RefsBelow, ReadsBelow;
    var parts := TurnParts(e);
    match e {
      case For(_, _, each) =>
        PairRefs(Expr.Variable(None), Expr.Variable(None), n);
        if each.Some? {
          CompiledRefsIff(k, bound, depth, each.value, n);
          assert parts[0] == each.value;
        }
      case ForIn(_, _, from, to) =>
        CompiledRefsIff(k, bound, depth, from, n);
        CompiledRefsIff(k, bound, depth, to, n);
        PairRefs(Compile(k, bound, depth, from).value.e, Compile(k, bound, depth, to).value.e, n);
        assert parts[0] == from && parts[1] == to;
      case ForAt(_, _, offset) =>
        CompiledRefsIff(k, bound, depth, offset, n);
        PairRefs(Compile(k, bound, depth, offset).value.e, Expr.Variable(None), n);
        assert parts[0] == offset;
    }
  }

  /** The indexes of the rules of a set. */
  lemma {:induction false} IndexesAre(rules: seq<Option<nat>>, n: nat)
    ensures IndexesBelow(rules, n) <==> forall j :: 0 <= j < |Indexes(rules)| ==> Indexes(rules)[j] < n
    decreases |rules|
  {
    if rules != [] {
      var first, rest := if rules[0].Some? then [rules[0].value] else [], Indexes(rules[1..]);
      IndexesAre(rules[1..], n);
      assert Indexes(rules) == first + rest;
      AllBelowAppend(first, rest, n);
      assert (forall j :: 0 <= j < |first| ==> first[j] < n) <==> (rules[0].Some? ==> rules[0].value < n) by {
        if rules[0].Some? { assert first[0] == rules[0].value; }
      }
      assert IndexesBelow(rules, n) <==> (rules[0].Some? ==> rules[0].value < n) && IndexesBelow(rules[1..], n) by {
        assert forall j :: 0 <= j < |rules[1..]| ==> rules[1..][j] == rules[j + 1];
        assert forall j :: 0 < j < |rules| ==> rules[j] == rules[1..][j - 1];
      }
    }
  }

  lemma AllBelowAppend(xs: seq<nat>, ys: seq<nat>, n: nat)
    ensures (forall j :: 0 <= j < |xs + ys| ==> (xs + ys)[j] < n)
       <==> (forall j :: 0 <= j < |xs| ==> xs[j] < n) && (forall j :: 0 <= j < |ys| ==> ys[j] < n)
  {
    assert forall j :: 0 <= j < |xs| ==> (xs + ys)[j] == xs[j];
    assert forall j :: 0 <= j < |ys| ==> (xs + ys)[|xs| + j] == ys[j];
    assert forall j :: |xs| <= j < |xs + ys| ==> (xs + ys)[j] == ys[j - |xs|];
  }

  lemma {:induction false} RuleSetRefs(k: Context, bound: Bound, depth: nat, e: Source, n: nat)
    requires e.ForRules? && CompileSelection(k, bound, depth, e.selection).Some? && RulesOf(k.rules, e.patterns).Some?
    ensures var rules := RulesOf(k.rules, e.patterns).value;
            var s := CompileSelection(k, bound, depth, e.selection).value;
            RefsBelow(Expr.ForRules(s, Indexes(rules), CountGlobal(rules)), n) <==> ReadsBelow(k, bound.Keys, e, n)
    decreases e, 1
  {
    hide Compile, CompileSelection, ReadsBelow, RulesOf;
    SelectionRefs(k, bound, depth, e.selection, n, e);
    IndexesAre(RulesOf(k.rules, e.patterns).value, n);
    ReadsUnfolds(k, bound.Keys, e, n);
    InBelow(k, bound.Keys, NumberOfSelection(e.selection), n);
  }

  /** The arguments kept by a use are those on its path. */
  lemma {:induction false} UseRefs(k: Context, bound: Bound, depth: nat, id: Identifier, n: nat, top: Source)
    requires CompileUse(k, bound, depth, id).Some? && id < top
    ensures AllBelow(CompileUse(k, bound, depth, id).value.path.arguments, n)
       <==> SourcesBelow(k, bound.Keys, Arguments(id, 0), n)
    decreases top, 1
  {
    hide Compile, RefsBelow, ReadsBelow, CompileArguments;
    if id.name in bound {
      PathRefs(k, bound, depth, id, 0, AtType(bound[id.name].ty), None, n, top);
    } else {
      var m := k.modules[id.name];
      var field := id.path[0].field;
      if field in m.statics {
        PathRefs(k, bound, depth, id, 1, AtValue(m.statics[field]), Some(m.statics[field]), n, top);
        assert StepArguments(id, 0) == [] && Arguments(id, 0) == Arguments(id, 1);
      } else {
        PathRefs(k, bound, depth, id, 0, AtType(ObjectType(m.dynamic)), None, n, top);
      }
    }
  }

  lemma {:induction false} PathRefs(k: Context, bound: Bound, depth: nat, id: Identifier, i: nat, current: Current,
                                    immediate: Option<StaticValue>, n: nat, top: Source)
    requires i <= |id.path| && CompilePath(k, bound, depth, id, i, current, immediate).Some? && id < top
    ensures AllBelow(CompilePath(k, bound, depth, id, i, current, immediate).value.arguments, n)
       <==> SourcesBelow(k, bound.Keys, Arguments(id, i), n)
    decreases top, 0
  {
    hide Compile, RefsBelow, ReadsBelow;
    ArgumentsAre(k, bound, depth, id, i);
    var xss := CompileArguments(k, bound, depth, id, i).value;
    var xs, es := Soundness.Flatten(xss), Arguments(id, i);
    Scoping.ArgumentsCompile(k, bound, depth, id, i);
    Soundness.FollowArguments(id.path[i..], current, immediate, xss);
    forall j | 0 <= j < |es| ensures RefsBelow(Exprs(xs)[j], n) <==> ReadsBelow(k, bound.Keys, es[j], n) {
      assert es[j] < id;
      CompiledRefsIff(k, bound, depth, es[j], n);
    }
    if SourcesBelow(k, bound.Keys, es, n) {
      forall j | 0 <= j < |xs| ensures RefsBelow(Exprs(xs)[j], n) { assert ReadsBelow(k, bound.Keys, es[j], n); }
    }
  }

  /** From a static value, a path without a call has no argument. */
  lemma {:induction false} StaticPath(path: seq<Access>, s: StaticValue, xss: seq<seq<Typed>>)
    requires Soundness.Fitted(path, xss) && Follow(path, AtValue(s), Some(s), xss).Some?
    ensures var p := Follow(path, AtValue(s), Some(s), xss).value;
            p.immediate.Some? && (p.immediate.value.StaticScalar? ==> p.arguments == [])
    decreases |path|
  {
    if path != [] {
      var next := StepType(AtValue(s), path[0], TypesIn(xss[0])).value;
      if next.AtValue? {
        assert xss[0] == [];
        StaticPath(path[1..], next.v, xss[1..]);
      } else {
        Soundness.DynamicSteps(path[1..], next.t, Some(s), xss[1..]);
      }
    }
  }

  /** Nothing that a path evaluates is lost in the expression. */
  lemma UseKeepsArguments(k: Context, bound: Bound, depth: nat, id: Identifier)
    requires CompileUse(k, bound, depth, id).Some?
    ensures var p := CompileUse(k, bound, depth, id).value.path;
            p.immediate.Some? && p.immediate.value.StaticScalar? ==> p.arguments == []
  {
    hide Compile;
    if id.name in bound {
      var xss := CompileArguments(k, bound, depth, id, 0).value;
      Soundness.DynamicSteps(id.path[0..], bound[id.name].ty, None, xss);
    } else {
      var m := k.modules[id.name];
      var field := id.path[0].field;
      if field in m.statics {
        StaticPath(id.path[1..], m.statics[field], CompileArguments(k, bound, depth, id, 1).value);
      } else {
        Soundness.DynamicSteps(id.path[0..], ObjectType(m.dynamic), None, CompileArguments(k, bound, depth, id, 0).value);
      }
    }
  }

  lemma IntoExpressionRefs(use: Use, n: nat)
    requires IntoExpression(use).Some?
    requires use.path.immediate.Some? && use.path.immediate.value.StaticScalar? ==> use.path.arguments == []
    ensures RefsBelow(IntoExpression(use).value.e, n) <==> AllBelow(use.path.arguments, n)
  {
    var x := IntoExpression(use).value.e;
    if x.Const? { OperatorRefs(x, n); }
  }

  lemma {:induction false} NameRefs(k: Context, bound: Bound, depth: nat, e: Source, n: nat)
    requires e.Named? && CompileName(k, bound, depth, e.id).Some?
    ensures RefsBelow(CompileName(k, bound, depth, e.id).value.e, n) <==> ReadsBelow(k, bound.Keys, e, n)
    decreases e, 2
  {
    hide Compile, CompileUse, ReadsBelow;
    var id := e.id;
    ReadsUnfolds(k, bound.Keys, e, n);
    if id.name in bound || id.name in k.modules {
      hide RefsBelow;
      UseRefs(k, bound, depth, id, n, e);
      UseKeepsArguments(k, bound, depth, id);
      IntoExpressionRefs(CompileUse(k, bound, depth, id).value, n);
      InBelow(k, bound.Keys, Arguments(id, 0), n);
    } else {
      var x := CompileName(k, bound, depth, id).value.e;
      assert Expressions.IsOperator(x) && Expressions.Operands(x) == [];
      var rule := Find(k.rules, id.name);
      if rule.Some? { assert [rule.value][0] == rule.value; }
    }
  }

  lemma {:induction false} IteratorRefs(k: Context, bound: Bound, depth: nat, iter: SourceIterator, n: nat, top: Source)
    requires CompileIterator(k, bound, depth, iter).Some? && iter < top
    ensures IteratorBelow(CompileIterator(k, bound, depth, iter).value.iter, n)
       <==> SourcesBelow(k, bound.Keys, PartsOfIterator(iter), n)
    decreases top, 2
  {
    hide Compile, CompileUse, RefsBelow, ReadsBelow;
    var parts := PartsOfIterator(iter);
    match iter
    case Iterable(id) => UseRefs(k, bound, depth, id, n, top);
    case Between(from, to) =>
      CompiledRefsIff(k, bound, depth, from, n);
      CompiledRefsIff(k, bound, depth, to, n);
      assert parts[0] == from && parts[1] == to;
    case Listed(items) =>
      ListRefs(k, bound, depth, items, CompileAll(k, bound, depth, items).value, n, top);
  }

  lemma {:induction false} LoopRefs(k: Context, bound: Bound, depth: nat, e: Source, n: nat)
    requires e.ForIdentifiers? && CompileLoop(k, bound, depth, e).Some?
    ensures RefsBelow(CompileLoop(k, bound, depth, e).value.e, n) <==> ReadsBelow(k, bound.Keys, e, n)
    decreases e, 3
  {
    hide Compile, CompileSelection, CompileIterator, AddAllBound, ReadsBelow;
    SelectionRefs(k, bound, depth, e.selection, n, e);
    IteratorRefs(k, bound, depth, e.iter, n, e);
    var tys := CompileIterator(k, bound, depth, e.iter).value.tys;
    AddedKeys(bound, e.names, tys);
    CompiledRefsIff(k, AddAllBound(bound, e.names, tys).value, depth, e.body, n);
    LoopReads(k, bound.Keys, e, n);
  }

  /** Whatever a source reads, its namespace names. */
  lemma {:induction false} NamedReads(k: Context, scope: set<string>, e: Source, n: nat)
    requires RulesBelow(k.rules, n)
    ensures ReadsBelow(k, scope, e, n)
    decreases e
  {
    var ps := PartsOf(k, scope, e);
    forall j | 0 <= j < |ps| ensures ReadsBelow(k, ps[j].scope, ps[j].e, n) { NamedReads(k, ps[j].scope, ps[j].e, n); }
    if e.ForRules? && RulesOf(k.rules, e.patterns).Some? { Soundness.RulesInRange(k.rules, e.patterns, n); }
    if e.Named? { Soundness.FoundInRange(k.rules, e.id.name, n); }
  }

  /** A compiled condition only refers to rules that its namespace names. */
  lemma CompiledRefs(k: Context, bound: Bound, depth: nat, e: Source, n: nat)
    requires RulesBelow(k.rules, n) && Compile(k, bound, depth, e).Some?
    ensures RefsBelow(Compile(k, bound, depth, e).value.e, n)
  {
    NamedReads(k, bound.Keys, e, n);
    CompiledRefsIff(k, bound, depth, e, n);
  }

  lemma {:induction false} RefsBelowMore(e: Expr, n: nat, m: nat)
    requires RefsBelow(e, n) && n <= m
    ensures RefsBelow(e, m)
    decreases e, 1
  {
    if Expressions.IsOperator(e) {
      forall j | 0 <= j < |Expressions.Operands(e)| ensures RefsBelow(Expressions.Operands(e)[j], m) {
        RefsBelowMore(Expressions.Operands(e)[j], n, m);
      }
    } else {
      match e
      case For(selection, _, body) =>
        SelectionBelowMore(selection, n, m);
        RefsBelowMore(body, n, m);
      case ForIdentifiers(selection, iter, body) =>
        SelectionBelowMore(selection, n, m);
        RefsBelowMore(body, n, m);
        match iter {
          case ModuleIterator(use) => AllBelowMore(use.arguments, n, m);
          case Range(from, to) =>
            RefsBelowMore(from, n, m);
            RefsBelowMore(to, n, m);
          case List(items) => AllBelowMore(items, n, m);
        }
      case ForRules(selection, _, _) => SelectionBelowMore(selection, n, m);
      case Module(use) => AllBelowMore(use.arguments, n, m);
    }
  }

  lemma {:induction false} AllBelowMore(es: seq<Expr>, n: nat, m: nat)
    requires AllBelow(es, n) && n <= m
    ensures AllBelow(es, m)
    decreases es, 0
  {
    hide RefsBelow;
    forall j | 0 <= j < |es| ensures RefsBelow(es[j], m) { RefsBelowMore(es[j], n, m); }
  }

  lemma {:induction false} SelectionBelowMore(selection: ForSelection, n: nat, m: nat)
    requires SelectionBelow(selection, n) && n <= m
    ensures SelectionBelow(selection, m)
    decreases selection, 0
  {
    hide RefsBelow;
    if selection.SelectExpr? { RefsBelowMore(selection.number, n, m); }
  }
}
