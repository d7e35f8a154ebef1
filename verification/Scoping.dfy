/** Scope resolution: a compiled condition, whose names are indexes on a stack, evaluates to what the source means in
    terms of names and values. */
module Scoping {
  import opened Base
  import opened Values
  import opened Types
  import opened Sources
  import opened Expressions
  import opened Compiling
  import opened Soundness
  import opened VarMatches
  import S = Selection

  /** The values of the names in scope are those of the stack, at their indexes. */
  predicate Agrees(bound: Bound, env: Scope, run: Env) {
    && env.selected == run.selected && env.matches == run.matches
    && env.names.Keys == bound.Keys && |run.stack| == |bound|
    && forall n :: n in bound ==> bound[n].index < |run.stack| && run.stack[bound[n].index] == env.names[n]
  }

  /** The indexes of the bound names are exactly the positions of the stack. */
  ghost predicate Dense(bound: Bound) {
    && (forall n :: n in bound ==> bound[n].index < |bound|)
    && (forall m, n :: m in bound && n in bound && bound[m].index == bound[n].index ==> m == n)
    && (forall i: nat :: i < |bound| ==> Binds(bound, i))
  }

  ghost predicate Binds(bound: Bound, index: nat) {
    exists n :: n in bound && bound[n].index == index
  }

  lemma AddDense(bound: Bound, name: string, ty: ModuleType)
    requires Dense(bound) && AddBound(bound, name, ty).Some?
    ensures Dense(AddBound(bound, name, ty).value)
  {
    var inner := AddBound(bound, name, ty).value;
    KeysGrow(bound, name, BoundName(ty, |bound|));
    forall i: nat | i < |inner| ensures Binds(inner, i) {
      if i == |bound| {
        assert inner[name].index == i;
      } else {
        assert Binds(bound, i);
        var n :| n in bound && bound[n].index == i;
        assert inner[n].index == i;
      }
    }
  }

  lemma {:induction false} AddAllDense(bound: Bound, names: seq<string>, tys: seq<ModuleType>)
    requires Dense(bound) && AddAllBound(bound, names, tys).Some?
    ensures Dense(AddAllBound(bound, names, tys).value)
    decreases |names|
  {
    if names != [] {
      AddDense(bound, names[0], tys[0]);
      AddAllDense(AddBound(bound, names[0], tys[0]).value, names[1..], tys[1..]);
    }
  }

  // ----- Operators -----

  lemma SameOnVariable(run: Env, plain: Env, x: VariableIndex, r: Result, r': Result)
    requires MatchesOf(run, x) == MatchesOf(plain, x)
    ensures EvalCount(run, x) == EvalCount(plain, x) && EvalVariable(run, x) == EvalVariable(plain, x)
    ensures EvalCountIn(run, x, r, r') == EvalCountIn(plain, x, r, r')
    ensures EvalOffset(run, x, r) == EvalOffset(plain, x, r) && EvalLength(run, x, r) == EvalLength(plain, x, r)
    ensures EvalVariableAt(run, x, r) == EvalVariableAt(plain, x, r)
    ensures EvalVariableIn(run, x, r, r') == EvalVariableIn(plain, x, r, r')
  {
  }

  lemma OnVariableMeans(c: Scan, env: Scope, run: Env, e: Source, x: VariableIndex, k: Context, xs: seq<Typed>,
                        rs: seq<Result>)
    requires IsOnVariable(e) && |xs| == |rs| == |Sources.Operands(e)| && VariableNamed(k, e.name) == Some(x)
    requires Expressions.IsOperator(BuildOnVariable(e, x, xs).e)
    requires |Expressions.Operands(BuildOnVariable(e, x, xs).e)| == |xs|
    requires MatchesOf(run, x) == MatchesOf(Plain(env), x)
    ensures Expressions.Apply(c, run, BuildOnVariable(e, x, xs).e, rs) == Operate(c, k, env, e, rs)
  {
    var none: Result := Err(Undefined);
    SameOnVariable(run, Plain(env), x, if |rs| > 0 then rs[0] else none, if |rs| > 1 then rs[1] else none);
  }

  lemma PlainMeans(c: Scan, k: Context, env: Scope, run: Env, e: Source, xs: seq<Typed>, rs: seq<Result>)
    requires Sources.IsOperator(e) && !IsOnVariable(e) && |xs| == |rs| == |Sources.Operands(e)|
    requires BuildPlain(k, e, xs).Some?
    ensures var r := BuildPlain(k, e, xs).value;
            && Expressions.IsOperator(r.e) && |Expressions.Operands(r.e)| == |xs|
            && Expressions.Apply(c, run, r.e, rs) == Operate(c, k, env, e, rs)
  {
  }

  lemma OperatorMeans(c: Scan, k: Context, env: Scope, run: Env, e: Source, xs: seq<Typed>)
    requires Sources.IsOperator(e) && |xs| == |Sources.Operands(e)| && Build(k, e, xs).Some?
    requires env.selected == run.selected && env.matches == run.matches
    requires forall j :: 0 <= j < |xs| ==> Eval(c, run, xs[j].e) == Meaning(c, k, env, Sources.Operands(e)[j])
    ensures Eval(c, run, Build(k, e, xs).value.e) == Meaning(c, k, env, e)
  {
    hide BuildPlain, BuildOnVariable, Operate, Expressions.Apply, Eval, EvalOperands, MeaningOfOperands, VariableNamed;
    var rs := MeaningOfOperands(c, k, env, e);
    var x := Build(k, e, xs).value;
    if IsOnVariable(e) {
      OnVariableShape(e, VariableNamed(k, e.name).value, xs);
      assert MatchesOf(run, VariableNamed(k, e.name).value) == MatchesOf(Plain(env), VariableNamed(k, e.name).value);
      OnVariableMeans(c, env, run, e, VariableNamed(k, e.name).value, k, xs, rs);
    } else {
      PlainShape(k, e, xs);
      PlainMeans(c, k, env, run, e, xs, rs);
    }
    OperatorEval(c, run, x.e, xs, rs);
  }

  lemma OnVariableShape(e: Source, x: VariableIndex, xs: seq<Typed>)
    requires IsOnVariable(e) && |xs| == |Sources.Operands(e)|
    ensures var r := BuildOnVariable(e, x, xs); Expressions.IsOperator(r.e) && Expressions.Operands(r.e) == Exprs(xs)
  {
  }

  lemma OperatorEval(c: Scan, run: Env, e: Expr, xs: seq<Typed>, rs: seq<Result>)
    requires Expressions.IsOperator(e) && Expressions.Operands(e) == Exprs(xs) && |rs| == |xs|
    requires forall j :: 0 <= j < |xs| ==> Eval(c, run, xs[j].e) == rs[j]
    ensures Eval(c, run, e) == Expressions.Apply(c, run, e, rs)
  {
    assert EvalOperands(c, run, e) == rs;
  }

  // ----- Bound names -----

  lemma BindOneAgrees(bound: Bound, env: Scope, run: Env, name: string, ty: ModuleType, v: ModuleValue)
    requires Agrees(bound, env, run) && AddBound(bound, name, ty).Some?
    ensures Agrees(AddBound(bound, name, ty).value, env.(names := env.names[name := v]), WithBound(run, [v]))
  {
    var b := BoundName(ty, |bound|);
    KeysGrow(bound, name, b);
    PushedAgrees(bound, bound[name := b], env.names, env.names[name := v], run.stack, run.stack + [v], name, b, v);
  }

  lemma PushedAgrees(bound: Bound, inner: Bound, names: map<string, ModuleValue>, names': map<string, ModuleValue>,
                     stack: seq<ModuleValue>, stack': seq<ModuleValue>, name: string, b: BoundName, v: ModuleValue)
    requires name !in bound && names.Keys == bound.Keys && b.index == |stack|
    requires inner == bound[name := b] && names' == names[name := v] && stack' == stack + [v]
    requires forall n :: n in bound ==> bound[n].index < |stack| && stack[bound[n].index] == names[n]
    ensures names'.Keys == inner.Keys
    ensures forall n :: n in inner ==> inner[n].index < |stack'| && stack'[inner[n].index] == names'[n]
  {
  }

  lemma KeysGrow(bound: Bound, name: string, b: BoundName)
    requires name !in bound
    ensures bound[name := b].Keys == bound.Keys + {name} && |bound[name := b]| == |bound| + 1
  {
    var inner := bound[name := b];
    assert inner.Keys == bound.Keys + {name};
    assert |inner| == |inner.Keys| && |bound| == |bound.Keys|;
  }

  lemma {:induction false} BindAgrees(bound: Bound, env: Scope, run: Env, names: seq<string>, tys: seq<ModuleType>,
                                      turn: seq<ModuleValue>)
    requires Agrees(bound, env, run) && AddAllBound(bound, names, tys).Some? && |turn| == |tys|
    ensures Agrees(AddAllBound(bound, names, tys).value, Bind(env, names, turn), WithBound(run, turn))
    decreases |names|
  {
    if names == [] {
      assert run.stack + turn == run.stack;
      assert WithBound(run, turn) == run;
    } else {
      var env' := env.(names := env.names[names[0] := turn[0]]);
      BindOneAgrees(bound, env, run, names[0], tys[0], turn[0]);
      WithBoundTwice(run, turn);
      BindAgrees(AddBound(bound, names[0], tys[0]).value, env', WithBound(run, [turn[0]]), names[1..], tys[1..], turn[1..]);
    }
  }

  // ----- Sets of rules -----

  lemma MoveFront<T>(xs: seq<T>, y: T, zs: seq<T>)
    ensures multiset(xs + [y] + zs) == multiset{y} + multiset(xs + zs)
  {
    assert multiset(xs + [y] + zs) == multiset(xs) + multiset([y]) + multiset(zs);
  }

  function Trues(n: nat): seq<S.Tri> {
    seq(n, _ => S.Known(true))
  }

  function IndexTris(c: Scan, rules: seq<nat>): seq<S.Tri> {
    if rules == [] then [] else [RuleTri(c, Some(rules[0]))] + IndexTris(c, rules[1..])
  }

  lemma {:induction false} IndexTrisAre(c: Scan, rules: seq<nat>)
    ensures IndexTris(c, rules)
         == seq(|rules|, k requires 0 <= k < |rules| => S.Known(rules[k] < |c.rules| && c.rules[rules[k]]))
    decreases |rules|
  {
    if rules != [] { IndexTrisAre(c, rules[1..]); }
  }

  lemma OneRule(c: Scan, rule: Option<nat>, globals: seq<S.Tri>, n: nat, others: seq<nat>, all: seq<S.Tri>)
    requires globals == Trues(n) && multiset(globals + IndexTris(c, others)) == multiset(all)
    ensures rule.None? ==> multiset(Trues(n + 1) + IndexTris(c, others)) == multiset([RuleTri(c, rule)] + all)
    ensures rule.Some? ==>
              multiset(globals + IndexTris(c, [rule.value] + others)) == multiset([RuleTri(c, rule)] + all)
  {
    var t := RuleTri(c, rule);
    MoveFront(globals, t, IndexTris(c, others));
    if rule.None? {
      assert Trues(n + 1) == globals + [t];
    } else {
      assert ([rule.value] + others)[1..] == others;
      assert globals + ([t] + IndexTris(c, others)) == globals + [t] + IndexTris(c, others);
    }
  }

  lemma {:induction false} CountSplit(rules: seq<Option<nat>>)
    ensures |Indexes(rules)| + CountGlobal(rules) == |rules|
    decreases |rules|
  {
    if rules != [] { CountSplit(rules[1..]); }
  }

  lemma TrisTail(c: Scan, rules: seq<Option<nat>>)
    ensures rules == [] ==> TrisOfRules(c, rules) == []
    ensures rules != [] ==> TrisOfRules(c, rules) == [RuleTri(c, rules[0])] + TrisOfRules(c, rules[1..])
  {
  }

  lemma NoTris(c: Scan)
    ensures Trues(0) == [] && IndexTris(c, []) == []
  {
  }

  /** Global rules come first in the compiled set; it is the same multiset of results. */
  lemma {:induction false} RulesSplit(c: Scan, rules: seq<Option<nat>>, n: nat, others: seq<nat>, all: seq<S.Tri>)
    requires n == CountGlobal(rules) && others == Indexes(rules) && all == TrisOfRules(c, rules)
    ensures multiset(Trues(n) + IndexTris(c, others)) == multiset(all)
    decreases |rules|
  {
    hide IndexTris, TrisOfRules, RuleTri, Trues;
    TrisTail(c, rules);
    if rules == [] {
      NoTris(c);
    } else {
      var n', others', all' := CountGlobal(rules[1..]), Indexes(rules[1..]), TrisOfRules(c, rules[1..]);
      RulesSplit(c, rules[1..], n', others', all');
      OneRule(c, rules[0], Trues(n'), n', others', all');
      assert all == [RuleTri(c, rules[0])] + all';
      if rules[0].None? {
        assert n == n' + 1 && others == [] + others' == others';
      } else {
        assert n == n' && others == [rules[0].value] + others';
      }
    }
  }

  lemma SelectRules(c: Scan, ev: S.Evaluator, rules: seq<Option<nat>>)
    requires S.Started(ev)
    ensures S.Select(ev, RuleTris(c, Indexes(rules), CountGlobal(rules)), 0) == S.Select(ev, TrisOfRules(c, rules), 0)
  {
    RulesSplit(c, rules, CountGlobal(rules), Indexes(rules), TrisOfRules(c, rules));
    IndexTrisAre(c, Indexes(rules));
    assert RuleTris(c, Indexes(rules), CountGlobal(rules)) == Trues(CountGlobal(rules)) + IndexTris(c, Indexes(rules));
    S.SelectAnyOrder(ev, RuleTris(c, Indexes(rules), CountGlobal(rules)), TrisOfRules(c, rules));
  }

  // ----- Conditions -----

  predicate All(run: Env, e: Expr) {
    true
  }

  /** The arguments of a path are those of its steps, one after the other. */
  lemma {:induction false} ArgumentsFlatten(id: Identifier, i: nat, xss: seq<seq<Typed>>, f: Source -> Option<Typed>)
    requires i <= |id.path| && |xss| == |id.path| - i
    requires forall j :: 0 <= j < |xss| ==> |xss[j]| == |StepArguments(id, i + j)|
    requires forall j, m :: 0 <= j < |xss| && 0 <= m < |xss[j]| ==> f(StepArguments(id, i + j)[m]) == Some(xss[j][m])
    ensures |Flatten(xss)| == |Arguments(id, i)|
    ensures forall j :: 0 <= j < |Arguments(id, i)| ==> f(Arguments(id, i)[j]) == Some(Flatten(xss)[j])
    decreases |id.path| - i
  {
    if i < |id.path| {
      forall j | 0 <= j < |xss[1..]|
        ensures |xss[1..][j]| == |StepArguments(id, i + 1 + j)|
        ensures forall m :: 0 <= m < |xss[1..][j]| ==> f(StepArguments(id, i + 1 + j)[m]) == Some(xss[1..][j][m])
      {
        assert xss[1..][j] == xss[1 + j] && i + 1 + j == i + (1 + j);
      }
      ArgumentsFlatten(id, i + 1, xss[1..], f);
      assert |xss[0]| == |StepArguments(id, i + 0)|;
      assert forall m :: 0 <= m < |xss[0]| ==> f(StepArguments(id, i + 0)[m]) == Some(xss[0][m]);
    }
  }

  lemma ArgumentsCompile(k: Context, bound: Bound, depth: nat, id: Identifier, i: nat)
    requires i <= |id.path| && CompileArguments(k, bound, depth, id, i).Some?
    ensures var xs := Flatten(CompileArguments(k, bound, depth, id, i).value);
            && |xs| == |Arguments(id, i)|
            && forall j :: 0 <= j < |xs| ==> Compile(k, bound, depth, Arguments(id, i)[j]) == Some(xs[j])
  {
    ArgumentsAre(k, bound, depth, id, i);
    var xss := CompileArguments(k, bound, depth, id, i).value;
    forall j | 0 <= j < |xss|
      ensures |xss[j]| == |StepArguments(id, i + j)|
      ensures forall m :: 0 <= m < |xss[j]| ==> Compile(k, bound, depth, StepArguments(id, i + j)[m]) == Some(xss[j][m])
    {
      assert CompileStep(k, bound, depth, id, i + j) == Some(xss[j]);
    }
    ArgumentsFlatten(id, i, xss, e => Compile(k, bound, depth, e));
  }

  /** The compiled condition, on the stack, evaluates to what the source means in its scope. */
  lemma {:induction false} Means(c: Scan, k: Context, bound: Bound, depth: nat, env: Scope, run: Env, e: Source)
    requires Serves(c, k) && Fits(c, k, bound, run) && Agrees(bound, env, run) && Compile(k, bound, depth, e).Some?
    ensures Eval(c, run, Compile(k, bound, depth, e).value.e) == Meaning(c, k, env, e)
    decreases e, 3
  {
    hide Eval, EvalOperands, Everywhere, Conforms, Fits, CompileSelection, CompileTurn, CompileLoop, CompileName, Build;
    var d := depth + 1;
    if Sources.IsOperator(e) {
      var xs := CompileOperands(k, bound, d, e).value;
      forall j | 0 <= j < |xs| ensures Eval(c, run, xs[j].e) == Meaning(c, k, env, Sources.Operands(e)[j]) {
        Means(c, k, bound, d, env, run, Sources.Operands(e)[j]);
      }
      OperatorMeans(c, k, env, run, e, xs);
    } else if IsForVariables(e) {
      ForMeans(c, k, bound, d, env, run, e);
    } else {
      match e
      case ForIdentifiers(_, _, _, _) => LoopMeans(c, k, bound, d, env, run, e);
      case ForRules(_, _) => RulesMean(c, k, bound, d, env, run, e);
      case Named(id) => NameMeans(c, k, bound, d, env, run, id);
    }
  }

  lemma {:induction false} SelectionMeans(c: Scan, k: Context, bound: Bound, depth: nat, env: Scope, run: Env,
                                          selection: SourceSelection, n: nat)
    requires Serves(c, k) && Fits(c, k, bound, run) && Agrees(bound, env, run)
    requires CompileSelection(k, bound, depth, selection).Some?
    ensures EvalSelection(c, run, CompileSelection(k, bound, depth, selection).value, n)
         == MeaningOfSelection(c, k, env, selection, n)
    ensures var chosen := MeaningOfSelection(c, k, env, selection, n); chosen.Feed? ==> S.Started(chosen.ev)
    decreases selection, 0
  {
    hide Compile, Eval, Meaning, Conforms, Fits, Serves;
    if selection.NumberOf? { Means(c, k, bound, depth, env, run, selection.number); }
  }

  lemma SelectedMeans(c: Scan, env: Scope, run: Env)
    requires env.selected == run.selected && env.matches == run.matches
    ensures Eval(c, run, Expr.Variable(None)) == EvalVariable(Plain(env), None)
  {
    assert MatchesOf(run, None) == MatchesOf(Plain(env), None);
    OperatorEval(c, run, Expr.Variable(None), [], []);
  }

  lemma SelectedAtMeans(c: Scan, env: Scope, run: Env, x: Typed, r: Result)
    requires env.selected == run.selected && env.matches == run.matches && Eval(c, run, x.e) == r
    ensures Eval(c, run, Expr.VariableAt(None, x.e)) == EvalVariableAt(Plain(env), None, r)
  {
    SameOnVariable(run, Plain(env), None, r, r);
    OperatorEval(c, run, Expr.VariableAt(None, x.e), [x], [r]);
  }

  lemma SelectedInMeans(c: Scan, env: Scope, run: Env, x: Typed, y: Typed, r: Result, r': Result)
    requires env.selected == run.selected && env.matches == run.matches
    requires Eval(c, run, x.e) == r && Eval(c, run, y.e) == r'
    ensures Eval(c, run, Expr.VariableIn(None, x.e, y.e)) == EvalVariableIn(Plain(env), None, r, r')
  {
    SameOnVariable(run, Plain(env), None, r, r');
    InShape(c, run, x, y, [r, r']);
    OperatorEval(c, run, Expr.VariableIn(None, x.e, y.e), [x, y], [r, r']);
  }

  lemma {:induction false} TurnMeans(c: Scan, k: Context, bound: Bound, depth: nat, env: Scope, run: Env, e: Source)
    requires Serves(c, k) && Fits(c, k, bound, run) && Agrees(bound, env, run)
    requires IsForVariables(e) && CompileTurn(k, bound, depth, e).Some?
    ensures Eval(c, run, CompileTurn(k, bound, depth, e).value) == MeaningOfTurn(c, k, env, e)
    decreases e, 0
  {
    hide Compile, Eval, Meaning, Conforms, Fits, Serves, Everywhere;
    match e
    case For(_, _, each) =>
      if each.Some? { Means(c, k, bound, depth, env, run, each.value); } else { SelectedMeans(c, env, run); }
    case ForIn(_, _, from, to) =>
      Means(c, k, bound, depth, env, run, from);
      Means(c, k, bound, depth, env, run, to);
      SelectedInMeans(c, env, run, Compile(k, bound, depth, from).value, Compile(k, bound, depth, to).value,
                      Meaning(c, k, env, from), Meaning(c, k, env, to));
    case ForAt(_, _, offset) =>
      Means(c, k, bound, depth, env, run, offset);
      SelectedAtMeans(c, env, run, Compile(k, bound, depth, offset).value, Meaning(c, k, env, offset));
  }

  lemma {:induction false} ForMeans(c: Scan, k: Context, bound: Bound, depth: nat, env: Scope, run: Env, e: Source)
    requires Serves(c, k) && Fits(c, k, bound, run) && Agrees(bound, env, run) && IsForVariables(e)
    requires CompileSelection(k, bound, depth, e.selection).Some? && CompileTurn(k, bound, depth, e).Some?
    requires VariablesOf(k.variables, e.patterns).Some?
    ensures Eval(c, run, Expr.For(CompileSelection(k, bound, depth, e.selection).value,
                                  VariablesOf(k.variables, e.patterns).value,
                                  CompileTurn(k, bound, depth, e).value)) == Meaning(c, k, env, e)
    decreases e, 1
  {
    hide Compile, CompileSelection, CompileTurn, EvalSelection, MeaningOfSelection, MeaningOfTurn, Conforms;
    var variables := VariablesOf(k.variables, e.patterns).value;
    var turn := CompileTurn(k, bound, depth, e).value;
    SelectionMeans(c, k, bound, depth, env, run, e.selection, |variables|);
    if e.patterns != [] { VariablesInRange(k.variables, e.patterns); }
    forall j | 0 <= j < |variables|
      ensures Eval(c, WithSelected(run, variables[j]), turn) == MeaningOfTurn(c, k, Select(env, variables[j]), e)
    {
      TurnMeans(c, k, bound, depth, Select(env, variables[j]), WithSelected(run, variables[j]), e);
    }
    assert EvalVariables(c, run, variables, turn) == MeaningOfTurns(c, k, env, variables, e);
  }

  lemma EvalOfRules(c: Scan, run: Env, selection: ForSelection, rules: seq<nat>, n: nat)
    ensures Eval(c, run, Expr.ForRules(selection, rules, n)) ==
            var chosen := EvalSelection(c, run, selection, |rules| + n);
            if chosen.Value? then chosen.r else FromVerdict(S.Select(chosen.ev, RuleTris(c, rules, n), 0))
  {
  }

  lemma {:induction false} RulesMean(c: Scan, k: Context, bound: Bound, depth: nat, env: Scope, run: Env, e: Source)
    requires Serves(c, k) && Fits(c, k, bound, run) && Agrees(bound, env, run) && e.ForRules?
    requires CompileSelection(k, bound, depth, e.selection).Some? && RulesOf(k.rules, e.patterns).Some?
    ensures var rules := RulesOf(k.rules, e.patterns).value;
            Eval(c, run, Expr.ForRules(CompileSelection(k, bound, depth, e.selection).value, Indexes(rules), CountGlobal(rules)))
            == Meaning(c, k, env, e)
    decreases e, 1
  {
    hide Compile, CompileSelection, Eval, EvalSelection, MeaningOfSelection, Conforms, Fits, Serves, RulesOf;
    var rules := RulesOf(k.rules, e.patterns).value;
    SelectionMeans(c, k, bound, depth, env, run, e.selection, |rules|);
    CountSplit(rules);
    EvalOfRules(c, run, CompileSelection(k, bound, depth, e.selection).value, Indexes(rules), CountGlobal(rules));
    var chosen := MeaningOfSelection(c, k, env, e.selection, |rules|);
    if chosen.Feed? { SelectRules(c, chosen.ev, rules); }
  }

  lemma {:induction false} ArgumentsMean(c: Scan, k: Context, bound: Bound, depth: nat, env: Scope, run: Env,
                                         id: Identifier, i: nat)
    requires Serves(c, k) && Fits(c, k, bound, run) && Agrees(bound, env, run)
    requires i <= |id.path| && CompileArguments(k, bound, depth, id, i).Some?
    ensures EvalAll(c, run, Exprs(Flatten(CompileArguments(k, bound, depth, id, i).value)))
         == MeaningOfArguments(c, k, env, id, i)
    decreases id, 0
  {
    var xs := Flatten(CompileArguments(k, bound, depth, id, i).value);
    ArgumentsCompile(k, bound, depth, id, i);
    forall j | 0 <= j < |xs| ensures Eval(c, run, xs[j].e) == Meaning(c, k, env, Arguments(id, i)[j]) {
      Means(c, k, bound, depth, env, run, Arguments(id, i)[j]);
    }
  }

  /** What a compiled path gives at run time. */
  function UseValue(c: Scan, run: Env, use: Use): Res<ModuleValue> {
    var p := use.path;
    if use.start.Some? then EvalModule(c, run, ModuleExpr(use.start.value, p.arguments, p.ops))
    else if p.current.AtValue? then Ok(OfStatic(p.current.v))
    else if p.immediate.Some? && p.immediate.value.StaticFun? then
      EvalModule(c, run, ModuleExpr(StaticFunction(p.immediate.value.id), p.arguments, p.ops))
    else Err(Stuck)
  }

  /** The value at the end of a path, from the results of its arguments. */
  function FollowValue(c: Scan, start: ModuleValue, ops: seq<Op>, rs: seq<Result>): Res<ModuleValue> {
    var args := Collect(rs);
    if args.Err? then Err(args.p) else EvalOps(c, start, ops, args.v)
  }

  lemma DynamicUseMeans(c: Scan, run: Env, start: ModuleKind, v: ModuleValue, path: seq<Access>, t: ModuleType,
                        xss: seq<seq<Typed>>)
    requires Fitted(path, xss) && Follow(path, AtType(t), None, xss).Some? && StartsAt(c, run, start, v)
    ensures UseValue(c, run, Use(Some(start), Follow(path, AtType(t), None, xss).value))
         == FollowValue(c, v, Ops(path), EvalAll(c, run, Exprs(Flatten(xss))))
  {
    DynamicSteps(path, t, None, xss);
    FollowArguments(path, AtType(t), None, xss);
  }

  lemma StaticUseMeans(c: Scan, run: Env, path: seq<Access>, s: StaticValue, xss: seq<seq<Typed>>)
    requires Fitted(path, xss) && Follow(path, AtValue(s), Some(s), xss).Some? && StaticConforms(c, s)
    requires AllSafe(c, run, Flatten(xss), All)
    ensures UseValue(c, run, Use(None, Follow(path, AtValue(s), Some(s), xss).value))
         == FollowValue(c, OfStatic(s), Ops(path), EvalAll(c, run, Exprs(Flatten(xss))))
  {
    hide Follow, Everywhere, Conforms, StaticConforms, Eval;
    StaticEnd(c, path, s, xss);
    FollowArguments(path, AtValue(s), Some(s), xss);
    CollectSafe(c, run, Flatten(xss), All);
    var args := Collect(EvalAll(c, run, Exprs(Flatten(xss))));
    if args.Ok? { StaticSteps(c, path, s, xss, args.v); }
    if Flatten(xss) == [] { assert EvalAll(c, run, Exprs(Flatten(xss))) == []; }
  }

  lemma ValueOfFollows(c: Scan, k: Context, env: Scope, id: Identifier, v: ModuleValue, i: nat)
    requires Start(c, k, env, id) == Some((v, i)) && i <= |id.path|
    ensures ValueOf(c, k, env, id) == FollowValue(c, v, Ops(id.path[i..]), MeaningOfArguments(c, k, env, id, i))
  {
  }

  lemma {:induction false} UseMeans(c: Scan, k: Context, bound: Bound, depth: nat, env: Scope, run: Env, id: Identifier)
    requires Serves(c, k) && Fits(c, k, bound, run) && Agrees(bound, env, run) && CompileUse(k, bound, depth, id).Some?
    ensures UseValue(c, run, CompileUse(k, bound, depth, id).value) == ValueOf(c, k, env, id)
    decreases id, 2
  {
    hide Compile, Eval, Meaning, Conforms, Follow, Everywhere;
    if id.name in bound {
      var b := bound[id.name];
      var xss := CompileArguments(k, bound, depth, id, 0).value;
      ArgumentsMean(c, k, bound, depth, env, run, id, 0);
      ArgumentsSound(c, k, bound, depth, run, id, 0, All);
      ValueOfFollows(c, k, env, id, run.stack[b.index], 0);
      DynamicUseMeans(c, run, BoundedStack(b.index), run.stack[b.index], id.path[0..], b.ty, xss);
    } else {
      ModuleUseMeans(c, k, bound, depth, env, run, id);
    }
  }

  lemma {:induction false} ModuleUseMeans(c: Scan, k: Context, bound: Bound, depth: nat, env: Scope, run: Env,
                                          id: Identifier)
    requires Serves(c, k) && Fits(c, k, bound, run) && Agrees(bound, env, run) && CompileUse(k, bound, depth, id).Some?
    requires id.name !in bound
    ensures UseValue(c, run, CompileUse(k, bound, depth, id).value) == ValueOf(c, k, env, id)
    decreases id, 1
  {
    hide Eval, Meaning, Conforms, StaticConforms, Follow, Everywhere;
    var m := k.modules[id.name];
    assert ServesModule(c, m);
    var i := if id.path[0].field in m.statics then 1 else 0;
    var v := if i == 1 then OfStatic(m.statics[id.path[0].field]) else c.modules[m.index];
    ArgumentsMean(c, k, bound, depth, env, run, id, i);
    ValueOfFollows(c, k, env, id, v, i);
    ModuleValueMeans(c, k, bound, depth, run, id, m, i, MeaningOfArguments(c, k, env, id, i));
  }

  lemma ModuleValueMeans(c: Scan, k: Context, bound: Bound, depth: nat, run: Env, id: Identifier, m: ImportedModule, i: nat,
                         rs: seq<Result>)
    requires Serves(c, k) && Fits(c, k, bound, run) && CompileUse(k, bound, depth, id).Some? && ServesModule(c, m)
    requires id.name !in bound && m == k.modules[id.name] && i == if id.path[0].field in m.statics then 1 else 0
    requires CompileArguments(k, bound, depth, id, i).Some?
    requires EvalAll(c, run, Exprs(Flatten(CompileArguments(k, bound, depth, id, i).value))) == rs
    ensures UseValue(c, run, CompileUse(k, bound, depth, id).value) ==
            FollowValue(c, if i == 1 then OfStatic(m.statics[id.path[0].field]) else c.modules[m.index], Ops(id.path[i..]), rs)
  {
    hide Compile, Eval, EvalModule, Everywhere, Conforms, StaticConforms, Follow, OfStatic, FollowValue, UseValue;
    ArgumentsSound(c, k, bound, depth, run, id, i, All);
    ArgumentsAre(k, bound, depth, id, i);
    var xss := CompileArguments(k, bound, depth, id, i).value;
    if i == 1 {
      StaticUseMeans(c, run, id.path[1..], m.statics[id.path[0].field], xss);
    } else {
      DynamicUseMeans(c, run, ModuleValueAt(m.index), c.modules[m.index], id.path[0..], ObjectType(m.dynamic), xss);
    }
  }

  lemma IntoExpressionMeans(c: Scan, run: Env, use: Use)
    requires PathSafe(c, run, use, All) && IntoExpression(use).Some?
    ensures var v := UseValue(c, run, use);
            Eval(c, run, IntoExpression(use).value.e) == if v.Err? then Err(v.p) else FromModule(c, v.v)
  {
  }

  /** A name that is neither bound nor a module: a rule, or an external symbol. */
  lemma OuterNameMeans(c: Scan, k: Context, bound: Bound, depth: nat, env: Scope, run: Env, id: Identifier)
    requires Serves(c, k) && env.names.Keys == bound.Keys && id.name !in bound && id.name !in k.modules
    requires CompileName(k, bound, depth, id).Some?
    ensures Eval(c, run, CompileName(k, bound, depth, id).value.e) == MeaningOfName(c, k, env, id)
  {
    hide Meaning, Conforms, StaticConforms, CompileUse, Everywhere;
    FoundInRange(k.rules, id.name, |c.rules|);
    var x := CompileName(k, bound, depth, id).value;
    OperatorEval(c, run, x.e, [], []);
  }

  lemma {:induction false} NameMeans(c: Scan, k: Context, bound: Bound, depth: nat, env: Scope, run: Env, id: Identifier)
    requires Serves(c, k) && Fits(c, k, bound, run) && Agrees(bound, env, run) && CompileName(k, bound, depth, id).Some?
    ensures Eval(c, run, CompileName(k, bound, depth, id).value.e) == MeaningOfName(c, k, env, id)
    decreases id, 3
  {
    if id.name in bound || id.name in k.modules {
      UseMeans(c, k, bound, depth, env, run, id);
      UseSound(c, k, bound, depth, run, id, All);
      IntoExpressionMeans(c, run, CompileUse(k, bound, depth, id).value);
    } else {
      OuterNameMeans(c, k, bound, depth, env, run, id);
    }
  }

  lemma {:induction false} BodyMeans(c: Scan, k: Context, bound: Bound, depth: nat, env: Scope, run: Env,
                                     names: seq<string>, tys: seq<ModuleType>, turn: seq<ModuleValue>, body: Source)
    requires Serves(c, k) && Fits(c, k, bound, run) && Agrees(bound, env, run)
    requires AddAllBound(bound, names, tys).Some? && AllConform(c, turn, tys)
    requires Compile(k, AddAllBound(bound, names, tys).value, depth, body).Some?
    ensures Eval(c, WithBound(run, turn), Compile(k, AddAllBound(bound, names, tys).value, depth, body).value.e)
         == Meaning(c, k, Bind(env, names, turn), body)
    decreases body, 4
  {
    BindFits(c, k, bound, run, names, tys, turn);
    BindAgrees(bound, env, run, names, tys, turn);
    Means(c, k, AddAllBound(bound, names, tys).value, depth, Bind(env, names, turn), WithBound(run, turn), body);
  }

  lemma {:induction false} BodiesMean(c: Scan, k: Context, bound: Bound, depth: nat, env: Scope, run: Env,
                                      names: seq<string>, tys: seq<ModuleType>, turns: seq<seq<ModuleValue>>, body: Source)
    requires Serves(c, k) && Fits(c, k, bound, run) && Agrees(bound, env, run)
    requires AddAllBound(bound, names, tys).Some? && forall turn :: turn in turns ==> AllConform(c, turn, tys)
    requires Compile(k, AddAllBound(bound, names, tys).value, depth, body).Some?
    ensures EvalTurns(c, run, turns, Compile(k, AddAllBound(bound, names, tys).value, depth, body).value.e)
         == MeaningOfBodies(c, k, env, names, turns, body)
    decreases body, 5
  {
    forall j | 0 <= j < |turns|
      ensures Eval(c, WithBound(run, turns[j]), Compile(k, AddAllBound(bound, names, tys).value, depth, body).value.e)
           == Meaning(c, k, Bind(env, names, turns[j]), body)
    {
      BodyMeans(c, k, bound, depth, env, run, names, tys, turns[j], body);
    }
  }

  lemma {:induction false} ItemsMean(c: Scan, k: Context, bound: Bound, depth: nat, env: Scope, run: Env,
                                     names: seq<string>, tys: seq<ModuleType>, rs: seq<Result>, body: Source)
    requires Serves(c, k) && Fits(c, k, bound, run) && Agrees(bound, env, run)
    requires AddAllBound(bound, names, tys).Some?
    requires forall j :: 0 <= j < |rs| && ItemOf(rs[j]).Ok? ==> AllConform(c, [ItemOf(rs[j]).v], tys)
    requires Compile(k, AddAllBound(bound, names, tys).value, depth, body).Some?
    ensures EvalBodies(c, run, rs, Compile(k, AddAllBound(bound, names, tys).value, depth, body).value.e)
         == MeaningOfItems(c, k, env, names, rs, body)
    decreases body, 5
  {
    var x := Compile(k, AddAllBound(bound, names, tys).value, depth, body).value.e;
    forall j | 0 <= j < |rs| ensures EvalBodies(c, run, rs, x)[j] == MeaningOfItems(c, k, env, names, rs, body)[j] {
      if ItemOf(rs[j]).Ok? { BodyMeans(c, k, bound, depth, env, run, names, tys, [ItemOf(rs[j]).v], body); }
    }
  }

  lemma {:induction false} LoopMeans(c: Scan, k: Context, bound: Bound, depth: nat, env: Scope, run: Env, e: Source)
    requires Serves(c, k) && Fits(c, k, bound, run) && Agrees(bound, env, run)
    requires e.ForIdentifiers? && CompileLoop(k, bound, depth, e).Some?
    ensures Eval(c, run, CompileLoop(k, bound, depth, e).value.e) == Meaning(c, k, env, e)
    decreases e, 2
  {
    hide Compile, CompileSelection, EvalSelection, MeaningOfSelection, EvalLoop, MeaningOfLoop, Conforms, Fits, Serves;
    var x := CompileLoop(k, bound, depth, e).value.e;
    SelectionMeans(c, k, bound, depth, env, run, e.selection, 0);
    var chosen := MeaningOfSelection(c, k, env, e.selection, 0);
    if chosen.Feed? { TurnsMean(c, k, bound, depth, env, run, chosen.ev, e); }
  }

  lemma {:induction false} TurnsMean(c: Scan, k: Context, bound: Bound, depth: nat, env: Scope, run: Env,
                                     ev: S.Evaluator, e: Source)
    requires Serves(c, k) && Fits(c, k, bound, run) && Agrees(bound, env, run)
    requires e.ForIdentifiers? && CompileLoop(k, bound, depth, e).Some?
    ensures EvalLoop(c, run, ev, CompileLoop(k, bound, depth, e).value.e) == MeaningOfLoop(c, k, env, ev, e)
    decreases e, 1
  {
    var turning := CompileIterator(k, bound, depth, e.iter).value;
    var inner := AddAllBound(bound, e.names, turning.tys).value;
    var selection, body := CompileSelection(k, bound, depth, e.selection).value, Compile(k, inner, depth, e.body).value;
    match e.iter
    case Iterable(_) => IterableMeans(c, k, bound, depth, env, run, ev, e, selection, turning, body);
    case Between(_, _) => BetweenMeans(c, k, bound, depth, env, run, ev, e, selection, turning, body);
    case Listed(_) => ListedMeans(c, k, bound, depth, env, run, ev, e, selection, turning, body);
  }

  /** The parts of a compiled loop. */
  predicate Parts(k: Context, bound: Bound, depth: nat, e: Source, turning: Turning, body: Typed)
    requires e.ForIdentifiers?
  {
    && CompileIterator(k, bound, depth, e.iter) == Some(turning)
    && AddAllBound(bound, e.names, turning.tys).Some?
    && Compile(k, AddAllBound(bound, e.names, turning.tys).value, depth, e.body) == Some(body)
  }

  lemma EvalOfIterable(c: Scan, run: Env, ev: S.Evaluator, selection: ForSelection, use: ModuleExpr, body: Expr)
    ensures EvalLoop(c, run, ev, Expr.ForIdentifiers(selection, ModuleIterator(use), body)) ==
            var v := EvalModule(c, run, use);
            if v.Err? then Err(v.p)
            else if Bindings(v.v).Err? then Err(Bindings(v.v).p)
            else SelectResults(c, ev, EvalTurns(c, run, Bindings(v.v).v, body))
  {
  }

  lemma ModuleTurnsConform(c: Scan, run: Env, use: ModuleExpr, tys: seq<ModuleType>)
    requires TurnsConform(c, run, Turning(ModuleIterator(use), tys))
    requires EvalModule(c, run, use).Ok? && Bindings(EvalModule(c, run, use).v).Ok?
    ensures forall turn :: turn in Bindings(EvalModule(c, run, use).v).v ==> AllConform(c, turn, tys)
  {
    forall turn | turn in Bindings(EvalModule(c, run, use).v).v ensures AllConform(c, turn, tys) {
      assert IsTurn(c, run, ModuleIterator(use), turn);
    }
  }

  lemma {:induction false} IterableMeans(c: Scan, k: Context, bound: Bound, depth: nat, env: Scope, run: Env,
                                         ev: S.Evaluator, e: Source, selection: ForSelection, turning: Turning, body: Typed)
    requires Serves(c, k) && Fits(c, k, bound, run) && Agrees(bound, env, run)
    requires e.ForIdentifiers? && e.iter.Iterable? && Parts(k, bound, depth, e, turning, body)
    ensures EvalLoop(c, run, ev, Expr.ForIdentifiers(selection, turning.iter, body.e)) == MeaningOfLoop(c, k, env, ev, e)
    decreases e, 0
  {
    assert turning.iter.ModuleIterator? by { IterableValue(c, k, bound, depth, run, e.iter.id, turning); }
    var id, use := e.iter.id, turning.iter.use;
    IterableConforms(c, k, bound, depth, run, id, turning);
    UseMeans(c, k, bound, depth, env, run, id);
    IterableValue(c, k, bound, depth, run, id, turning);
    EvalOfIterable(c, run, ev, selection, use, body.e);
    var v := ValueOf(c, k, env, id);
    if v.Ok? && Bindings(v.v).Ok? {
      BodiesMean(c, k, bound, depth, env, run, e.names, turning.tys, Bindings(v.v).v, e.body);
    }
  }

  lemma IterableValue(c: Scan, k: Context, bound: Bound, depth: nat, run: Env, id: Identifier, turning: Turning)
    requires CompileIterator(k, bound, depth, Iterable(id)) == Some(turning)
    ensures turning.iter.ModuleIterator? && CompileUse(k, bound, depth, id).Some?
    ensures UseValue(c, run, CompileUse(k, bound, depth, id).value) == EvalModule(c, run, turning.iter.use)
  {
  }

  lemma IterableConforms(c: Scan, k: Context, bound: Bound, depth: nat, run: Env, id: Identifier, turning: Turning)
    requires Serves(c, k) && Fits(c, k, bound, run) && CompileIterator(k, bound, depth, Iterable(id)) == Some(turning)
    ensures turning.iter.ModuleIterator?
    ensures var v := EvalModule(c, run, turning.iter.use);
            v.Ok? && Bindings(v.v).Ok? ==> forall turn :: turn in Bindings(v.v).v ==> AllConform(c, turn, turning.tys)
  {
    IteratorSound(c, k, bound, depth, run, Iterable(id), All);
    var v := EvalModule(c, run, turning.iter.use);
    if v.Ok? && Bindings(v.v).Ok? { ModuleTurnsConform(c, run, turning.iter.use, turning.tys); }
  }

  lemma RangeConforms(c: Scan, from: i64, to: i64)
    requires from <= to
    ensures forall turn :: turn in RangeTurns(from, to) ==> AllConform(c, turn, [Scalar(IntegerType)])
  {
  }

  lemma EvalOfRange(c: Scan, run: Env, ev: S.Evaluator, selection: ForSelection, from: Expr, to: Expr, body: Expr)
    ensures EvalLoop(c, run, ev, Expr.ForIdentifiers(selection, Range(from, to), body)) ==
            var f, t := IntOf(Eval(c, run, from)), IntOf(Eval(c, run, to));
            if f.Err? then Err(f.p)
            else if t.Err? then Err(t.p)
            else if f.v > t.v then Err(Undefined)
            else SelectResults(c, ev, EvalTurns(c, run, RangeTurns(f.v, t.v), body))
  {
  }

  lemma {:induction false} BetweenMeans(c: Scan, k: Context, bound: Bound, depth: nat, env: Scope, run: Env,
                                        ev: S.Evaluator, e: Source, selection: ForSelection, turning: Turning, body: Typed)
    requires Serves(c, k) && Fits(c, k, bound, run) && Agrees(bound, env, run)
    requires e.ForIdentifiers? && e.iter.Between? && Parts(k, bound, depth, e, turning, body)
    ensures EvalLoop(c, run, ev, Expr.ForIdentifiers(selection, turning.iter, body.e)) == MeaningOfLoop(c, k, env, ev, e)
    decreases e, 0
  {
    hide Compile, Eval, Meaning, Conforms, Fits, Serves, Everywhere;
    Means(c, k, bound, depth, env, run, e.iter.from);
    Means(c, k, bound, depth, env, run, e.iter.to);
    EvalOfRange(c, run, ev, selection, turning.iter.from, turning.iter.to, body.e);
    var f, t := IntOf(Meaning(c, k, env, e.iter.from)), IntOf(Meaning(c, k, env, e.iter.to));
    if f.Ok? && t.Ok? && f.v <= t.v {
      RangeConforms(c, f.v, t.v);
      BodiesMean(c, k, bound, depth, env, run, e.names, turning.tys, RangeTurns(f.v, t.v), e.body);
    }
  }

  lemma {:induction false} ListedMeans(c: Scan, k: Context, bound: Bound, depth: nat, env: Scope, run: Env,
                                       ev: S.Evaluator, e: Source, selection: ForSelection, turning: Turning, body: Typed)
    requires Serves(c, k) && Fits(c, k, bound, run) && Agrees(bound, env, run)
    requires e.ForIdentifiers? && e.iter.Listed? && Parts(k, bound, depth, e, turning, body)
    ensures EvalLoop(c, run, ev, Expr.ForIdentifiers(selection, turning.iter, body.e)) == MeaningOfLoop(c, k, env, ev, e)
    decreases e, 0
  {
    hide Compile, Eval, Meaning, Conforms, Fits, Serves, Everywhere;
    var items := e.iter.items;
    var xs := CompileAll(k, bound, depth, items).value;
    forall j | 0 <= j < |items| ensures Eval(c, run, xs[j].e) == Meaning(c, k, env, items[j]) {
      Means(c, k, bound, depth, env, run, items[j]);
    }
    var rs := MeaningOfAll(c, k, env, items);
    assert EvalAll(c, run, Exprs(xs)) == rs;
    ItemsConform(c, k, bound, depth, run, items, turning, rs);
    ItemsMean(c, k, bound, depth, env, run, e.names, turning.tys, rs, e.body);
  }

  lemma ItemsConform(c: Scan, k: Context, bound: Bound, depth: nat, run: Env, items: seq<Source>, turning: Turning,
                     rs: seq<Result>)
    requires Serves(c, k) && Fits(c, k, bound, run) && CompileIterator(k, bound, depth, Listed(items)) == Some(turning)
    requires rs == EvalAll(c, run, Exprs(CompileAll(k, bound, depth, items).value))
    ensures forall j :: 0 <= j < |rs| && ItemOf(rs[j]).Ok? ==> AllConform(c, [ItemOf(rs[j]).v], turning.tys)
  {
    IteratorSound(c, k, bound, depth, run, Listed(items), All);
    forall j | 0 <= j < |rs| && ItemOf(rs[j]).Ok? ensures AllConform(c, [ItemOf(rs[j]).v], turning.tys) {
      assert ItemOf(Eval(c, run, turning.iter.items[j])) == Ok([ItemOf(rs[j]).v][0]);
      assert IsTurn(c, run, turning.iter, [ItemOf(rs[j]).v]);
    }
  }

  /** The condition of a rule, compiled, evaluates to what it means. */
  lemma RuleMeans(c: Scan, k: Context, e: Source, matches: Option<seq<seq<StringMatch>>>)
    requires Serves(c, k) && Compile(k, map[], 0, e).Some? && (matches.Some? ==> |matches.value| == |k.variables|)
    ensures Eval(c, Env(None, [], matches), Compile(k, map[], 0, e).value.e) == Meaning(c, k, Scope(map[], None, matches), e)
  {
    Means(c, k, map[], 0, Scope(map[], None, matches), Env(None, [], matches), e);
  }
}
