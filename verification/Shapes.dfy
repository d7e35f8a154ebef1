/** A compiled condition has the shape of its source: the same operators on the same operands in the same order, the same
    selections, the variables and rules that its patterns choose, and the paths of its names. */
module Shapes {
  import opened Base
  import opened Values
  import opened Types
  import opened Sources
  import opened Expressions
  import opened Compiling
  import opened Typing
  import opened Patterns
  import RuleCompiling
  import Soundness
  import Scoping

  /** The variable of this name; no name stands for the variable selected. */
  predicate Denotes(k: Context, name: string, x: VariableIndex) {
    if name == "" then x.None? else x.Some? && Chooses(k.variables, Pattern(name, false), x.value)
  }

  ghost predicate Mirrors(k: Context, bound: Bound, e: Source, x: Expr)
    decreases e, 1
  {
    match e
    case Const(v) => x == Expr.Const(v)
    case Filesize => x.Filesize?
    case Entrypoint => x.Entrypoint?
    case ReadInteger(ty, a) => x.ReadInteger? && x.ty == ty && Mirrors(k, bound, a, x.addr)
    case Count(name) => x.Count? && Denotes(k, name, x.variable)
    case CountInRange(name, from, to) =>
      x.CountInRange? && Denotes(k, name, x.variable) && Mirrors(k, bound, from, x.from) && Mirrors(k, bound, to, x.to)
    case Offset(name, n) => x.Offset? && Denotes(k, name, x.variable) && Mirrors(k, bound, n, x.occurence)
    case Length(name, n) => x.Length? && Denotes(k, name, x.variable) && Mirrors(k, bound, n, x.occurence)
    case Negate(a) => x.Negate? && Mirrors(k, bound, a, x.e)
    case Arithmetic(op, l, r) => x.Arithmetic? && x.arithOp == op && Mirrors(k, bound, l, x.l) && Mirrors(k, bound, r, x.r)
    case IntArithmetic(op, l, r) =>
      x.IntArithmetic? && x.intOp == op && Mirrors(k, bound, l, x.l) && Mirrors(k, bound, r, x.r)
    case BitwiseNot(a) => x.BitwiseNot? && Mirrors(k, bound, a, x.e)
    case Conj(es) => x.Conj? && |x.es| == |es| && forall j :: 0 <= j < |es| ==> Mirrors(k, bound, es[j], x.es[j])
    case Disj(es) => x.Disj? && |x.es| == |es| && forall j :: 0 <= j < |es| ==> Mirrors(k, bound, es[j], x.es[j])
    case Negation(a) => x.Negation? && Mirrors(k, bound, a, x.e)
    case Compare(l, r, lessThan, canBeEqual) =>
      && x.Compare? && x.lessThan == lessThan && x.canBeEqual == canBeEqual
      && Mirrors(k, bound, l, x.l) && Mirrors(k, bound, r, x.r)
    case Equals(l, r, negated) => x.Equals? && x.negated == negated && Mirrors(k, bound, l, x.l) && Mirrors(k, bound, r, x.r)
    case StringOperation(op, l, r, ci) =>
      && x.StringOperation? && x.stringOp == op && x.caseInsensitive == ci
      && Mirrors(k, bound, l, x.l) && Mirrors(k, bound, r, x.r)
    case MatchesRe(a, regex) => x.MatchesRe? && x.regex == regex && Mirrors(k, bound, a, x.e)
    case IsDefined(a) => x.IsDefined? && Mirrors(k, bound, a, x.e)
    case Variable(name) => x.Variable? && Denotes(k, name, x.variable)
    case VariableAt(name, a) => x.VariableAt? && Denotes(k, name, x.variable) && Mirrors(k, bound, a, x.offset)
    case VariableIn(name, from, to) =>
      x.VariableIn? && Denotes(k, name, x.variable) && Mirrors(k, bound, from, x.from) && Mirrors(k, bound, to, x.to)
    case For(selection, patterns, each) =>
      && x.For? && SelectionMirrors(k, bound, selection, x.selection) && AreChosen(k, patterns, x.variables)
      && if each.Some? then Mirrors(k, bound, each.value, x.body) else x.body == Expr.Variable(None)
    case ForIn(selection, patterns, from, to) =>
      && x.For? && SelectionMirrors(k, bound, selection, x.selection) && AreChosen(k, patterns, x.variables)
      && x.body.VariableIn? && x.body.variable.None?
      && Mirrors(k, bound, from, x.body.from) && Mirrors(k, bound, to, x.body.to)
    case ForAt(selection, patterns, offset) =>
      && x.For? && SelectionMirrors(k, bound, selection, x.selection) && AreChosen(k, patterns, x.variables)
      && x.body.VariableAt? && x.body.variable.None? && Mirrors(k, bound, offset, x.body.offset)
    case ForIdentifiers(selection, names, iter, body) =>
      && x.ForIdentifiers? && SelectionMirrors(k, bound, selection, x.selection) && IteratorMirrors(k, bound, iter, x.iter)
      && exists inner :: Binds(bound, names, inner) && Mirrors(k, inner, body, x.body)
    case ForRules(selection, patterns) =>
      x.ForRules? && SelectionMirrors(k, bound, selection, x.selection) && RulesChosenBy(k, patterns, x)
    case Named(id) => NameMirrors(k, bound, id, x)
  }

  ghost predicate SelectionMirrors(k: Context, bound: Bound, selection: SourceSelection, x: ForSelection)
    decreases selection, 0
  {
    match selection
    case AnyOf => x.SelectAny?
    case AllOf => x.SelectAll?
    case NoneOf => x.SelectNone?
    case NumberOf(n, asPercent) => x.SelectExpr? && x.asPercent == asPercent && Mirrors(k, bound, n, x.number)
  }

  ghost predicate IteratorMirrors(k: Context, bound: Bound, iter: SourceIterator, x: ForIterator)
    decreases iter, 0
  {
    match iter
    case Iterable(id) => x.ModuleIterator? && UseMirrors(k, bound, id, x.use)
    case Between(from, to) => x.Range? && Mirrors(k, bound, from, x.from) && Mirrors(k, bound, to, x.to)
    case Listed(items) =>
      x.List? && |x.items| == |items| && forall j :: 0 <= j < |items| ==> Mirrors(k, bound, items[j], x.items[j])
  }

  /** The variables that the patterns choose, as often as they do; all of them once when there is no pattern. */
  ghost predicate AreChosen(k: Context, patterns: seq<Pattern>, variables: seq<nat>) {
    forall i: nat :: multiset(variables)[i]
      == if patterns == [] then if i < |k.variables| then 1 else 0 else HowMany(k.variables, patterns, i)
  }

  /** The rules that the patterns choose: the indexes of normal rules, and the number of global ones. */
  ghost predicate RulesChosenBy(k: Context, patterns: seq<Pattern>, x: Expr)
    requires x.ForRules?
  {
    && x.alreadyMatched == HowManyRules(k.rules, patterns, None)
    && forall i: nat :: multiset(x.ruleSet)[i] == HowManyRules(k.rules, patterns, Some(i))
  }

  /** The names are bound at the next indexes, in their order. */
  ghost predicate Binds(bound: Bound, names: seq<string>, inner: Bound) {
    && inner.Keys == bound.Keys + RuleCompiling.NameSet(names)
    && (forall n :: n in bound ==> n in inner && inner[n] == bound[n])
    && forall j :: 0 <= j < |names| ==> names[j] in inner && inner[names[j]].index == |bound| + j
  }

  predicate StepMirrors(a: Access, op: Op) {
    match a
    case Field(f) => op == Subfield(f)
    case Index(_) => op == Subscript
    case Apply(es) => op == Call(|es|)
  }

  /** The arguments along a path, in order. */
  function Spread(path: seq<Access>): seq<Source> {
    if path == [] then []
    else (match path[0] case Field(_) => [] case Index(e) => [e] case Apply(es) => es) + Spread(path[1..])
  }

  /** A path from a bound name, or from what a module computes. */
  ghost predicate UseMirrors(k: Context, bound: Bound, id: Identifier, x: ModuleExpr)
    decreases id, 0
  {
    && (if id.name in bound then x.kind == BoundedStack(bound[id.name].index)
        else id.name in k.modules && x.kind == ModuleValueAt(k.modules[id.name].index))
    && |x.ops| == |id.path| && (forall j :: 0 <= j < |x.ops| ==> StepMirrors(id.path[j], x.ops[j]))
    && |x.arguments| == |Arguments(id, 0)|
    && forall j :: 0 <= j < |x.arguments| ==> Mirrors(k, bound, Arguments(id, 0)[j], x.arguments[j])
  }

  /** The path starts at a static value. */
  predicate StartsStatic(k: Context, bound: Bound, id: Identifier) {
    && id.name !in bound && id.name in k.modules
    && id.path != [] && id.path[0].Field? && id.path[0].field in k.modules[id.name].statics
  }

  /** What starts at a static value may be folded, and is not described here. */
  ghost predicate NameMirrors(k: Context, bound: Bound, id: Identifier, x: Expr)
    decreases id, 1
  {
    if id.name in bound || id.name in k.modules then
      StartsStatic(k, bound, id) || (x.Module? && UseMirrors(k, bound, id, x.use))
    else if exists j :: FirstNamed(k.rules, id.name, j) then
      exists j :: FirstNamed(k.rules, id.name, j)
                  && x == if k.rules[j].1.Some? then RuleResult(k.rules[j].1.value) else Expr.Const(Boolean(true))
    else exists j :: FirstNamed(k.externals, id.name, j) && x == ExternalSymbol(j)
  }

  lemma {:induction false} ArgumentsSpread(id: Identifier, i: nat)
    requires i <= |id.path|
    ensures Arguments(id, i) == Spread(id.path[i..])
    decreases |id.path| - i
  {
    if i < |id.path| { ArgumentsSpread(id, i + 1); }
  }

  // ----- Operators -----

  lemma NameDenotes(k: Context, name: string)
    requires VariableNamed(k, name).Some?
    ensures Denotes(k, name, VariableNamed(k, name).value)
  {
    var x := VariableNamed(k, name).value;
    if name != "" { NamedIs(k, name, x.value); }
  }

  ghost predicate AllMirror(k: Context, bound: Bound, es: seq<Source>, xs: seq<Typed>) {
    |xs| == |es| && forall j :: 0 <= j < |es| ==> Mirrors(k, bound, es[j], xs[j].e)
  }

  lemma BuiltMirrors(k: Context, bound: Bound, e: Source, xs: seq<Typed>)
    requires Sources.IsOperator(e) && AllMirror(k, bound, Sources.Operands(e), xs) && Build(k, e, xs).Some?
    ensures Mirrors(k, bound, e, Build(k, e, xs).value.e)
  {
    if IsOnVariable(e) { OnVariableMirrors(k, bound, e, xs); } else { PlainMirrors(k, bound, e, xs); }
  }

  lemma OnVariableMirrors(k: Context, bound: Bound, e: Source, xs: seq<Typed>)
    requires IsOnVariable(e) && AllMirror(k, bound, Sources.Operands(e), xs) && Build(k, e, xs).Some?
    ensures Mirrors(k, bound, e, Build(k, e, xs).value.e)
  {
    hide Denotes, VariableNamed, SelectionMirrors, IteratorMirrors, NameMirrors, AreChosen;
    NameDenotes(k, e.name);
    var es := Sources.Operands(e);
    assert |es| > 0 ==> Mirrors(k, bound, es[0], xs[0].e);
    assert |es| > 1 ==> Mirrors(k, bound, es[1], xs[1].e);
  }

  lemma PlainMirrors(k: Context, bound: Bound, e: Source, xs: seq<Typed>)
    requires Sources.IsOperator(e) && !IsOnVariable(e) && AllMirror(k, bound, Sources.Operands(e), xs)
    requires BuildPlain(k, e, xs).Some?
    ensures Mirrors(k, bound, e, BuildPlain(k, e, xs).value.e)
  {
    var es := Sources.Operands(e);
    assert |es| > 0 ==> Mirrors(k, bound, es[0], xs[0].e);
    assert |es| > 1 ==> Mirrors(k, bound, es[1], xs[1].e);
  }

  // ----- Sets -----

  lemma VariablesMirror(k: Context, patterns: seq<Pattern>)
    requires VariablesOf(k.variables, patterns).Some?
    ensures AreChosen(k, patterns, VariablesOf(k.variables, patterns).value)
  {
    hide HowMany;
    forall i: nat ensures multiset(VariablesOf(k.variables, patterns).value)[i]
                       == if patterns == [] then if i < |k.variables| then 1 else 0 else HowMany(k.variables, patterns, i)
    {
      if patterns == [] { AllVariables(k.variables, i); } else { VariablesChosen(k.variables, patterns, i); }
    }
  }

  lemma {:induction false} IndexesSplit(rules: seq<Option<nat>>, i: nat)
    ensures multiset(Indexes(rules))[i] == multiset(rules)[Some(i)] && CountGlobal(rules) == multiset(rules)[None]
    decreases |rules|
  {
    if rules != [] {
      var first: seq<nat> := if rules[0].Some? then [rules[0].value] else [];
      IndexesSplit(rules[1..], i);
      assert rules == [rules[0]] + rules[1..];
      Appended([rules[0]], rules[1..], Some(i));
      Appended([rules[0]], rules[1..], None);
      Appended(first, Indexes(rules[1..]), i);
      assert multiset(first)[i] == multiset([rules[0]])[Some(i)];
    }
  }

  lemma RulesMirror(k: Context, patterns: seq<Pattern>, x: Expr)
    requires RulesOf(k.rules, patterns).Some? && x.ForRules?
    requires x.ruleSet == Indexes(RulesOf(k.rules, patterns).value)
    requires x.alreadyMatched == CountGlobal(RulesOf(k.rules, patterns).value)
    ensures RulesChosenBy(k, patterns, x)
  {
    hide HowManyRules, RulesOf;
    var rules := RulesOf(k.rules, patterns).value;
    IndexesSplit(rules, 0);
    RulesChosen(k.rules, patterns, None);
    forall i: nat ensures multiset(x.ruleSet)[i] == HowManyRules(k.rules, patterns, Some(i)) {
      IndexesSplit(rules, i);
      RulesChosen(k.rules, patterns, Some(i));
    }
  }

  // ----- Names -----

  lemma {:induction false} AddedBinds(bound: Bound, names: seq<string>, tys: seq<ModuleType>)
    requires AddAllBound(bound, names, tys).Some?
    ensures Binds(bound, names, AddAllBound(bound, names, tys).value)
    decreases |names|
  {
    if names != [] {
      var one := AddBound(bound, names[0], tys[0]).value;
      var inner := AddAllBound(bound, names, tys).value;
      AddedBinds(one, names[1..], tys[1..]);
      OneMoreKey(bound, names[0], tys[0]);
      hide AddAllBound;
      RuleCompiling.NameSetTail(names);
      BindsMore(bound, names, tys[0], inner);
    }
  }

  lemma BindsMore(bound: Bound, names: seq<string>, ty: ModuleType, inner: Bound)
    requires names != [] && names[0] !in bound && Binds(bound[names[0] := BoundName(ty, |bound|)], names[1..], inner)
    requires |bound[names[0] := BoundName(ty, |bound|)]| == |bound| + 1
    requires RuleCompiling.NameSet(names) == {names[0]} + RuleCompiling.NameSet(names[1..])
    ensures Binds(bound, names, inner)
  {
    var one := bound[names[0] := BoundName(ty, |bound|)];
    assert names[0] in one && inner[names[0]] == one[names[0]];
    forall j | 0 <= j < |names| ensures names[j] in inner && inner[names[j]].index == |bound| + j {
      if j > 0 { assert names[1..][j - 1] == names[j]; }
    }
    forall n | n in bound ensures n in inner && inner[n] == bound[n] { assert n in one && one[n] == bound[n]; }
    assert inner.Keys == bound.Keys + RuleCompiling.NameSet(names);
  }

  lemma OneMoreKey(bound: Bound, name: string, ty: ModuleType)
    requires name !in bound
    ensures |bound[name := BoundName(ty, |bound|)]| == |bound| + 1
  {
    var one := bound[name := BoundName(ty, |bound|)];
    assert one.Keys == bound.Keys + {name};
    assert |one.Keys| == |one| && |bound.Keys| == |bound|;
  }

  lemma OpsMirror(path: seq<Access>)
    ensures forall j :: 0 <= j < |path| ==> StepMirrors(path[j], Ops(path)[j])
  {
  }

  /** The arguments of each step, as they were compiled, fit it. */
  lemma ArgumentsFit(k: Context, bound: Bound, depth: nat, id: Identifier)
    requires CompileArguments(k, bound, depth, id, 0).Some?
    ensures Soundness.Fitted(id.path, CompileArguments(k, bound, depth, id, 0).value)
  {
    hide Compile;
    ArgumentsAre(k, bound, depth, id, 0);
    var xss := CompileArguments(k, bound, depth, id, 0).value;
    forall j | 0 <= j < |id.path| ensures |xss[j]| == ArgumentCount(OpOf(id.path[j])) {
      assert CompileStep(k, bound, depth, id, 0 + j) == Some(xss[j]);
    }
  }

  /** If the condition compiles, it has the shape of its source. */
  ghost predicate Mirrored(k: Context, bound: Bound, depth: nat, e: Source) {
    Compile(k, bound, depth, e).Some? ==> Mirrors(k, bound, e, Compile(k, bound, depth, e).value.e)
  }

  ghost predicate AllMirrored(k: Context, bound: Bound, depth: nat, es: seq<Source>) {
    forall j :: 0 <= j < |es| ==> Mirrored(k, bound, depth, es[j])
  }

  lemma UseMirrored(k: Context, bound: Bound, depth: nat, id: Identifier)
    requires CompileUse(k, bound, depth, id).Some? && !StartsStatic(k, bound, id)
    requires id.name in bound || id.name in k.modules ==> AllMirrored(k, bound, depth, Arguments(id, 0))
    ensures var use := CompileUse(k, bound, depth, id).value;
            && use.start.Some? && use.path.current.AtType? && use.path.immediate.None?
            && UseMirrors(k, bound, id, ModuleExpr(use.start.value, use.path.arguments, use.path.ops))
  {
    hide Compile, Mirrors, Follow, Arguments;
    var t := if id.name in bound then bound[id.name].ty else ObjectType(k.modules[id.name].dynamic);
    var xss := CompileArguments(k, bound, depth, id, 0).value;
    assert id.path[0..] == id.path;
    ArgumentsFit(k, bound, depth, id);
    Soundness.DynamicSteps(id.path, t, None, xss);
    Soundness.FollowArguments(id.path, AtType(t), None, xss);
    Scoping.ArgumentsCompile(k, bound, depth, id, 0);
    OpsMirror(id.path);
  }

  lemma {:induction false} FoundFirst<T>(entries: seq<(string, T)>, name: string) returns (j: nat)
    requires Find(entries, name).Some?
    ensures FirstNamed(entries, name, j) && entries[j].1 == Find(entries, name).value
    decreases |entries|
  {
    if entries[0].0 == name {
      j := 0;
    } else {
      var rest := FoundFirst(entries[1..], name);
      j := rest + 1;
      forall m | 0 <= m < j ensures entries[m].0 != name { if m > 0 { assert entries[1..][m - 1] == entries[m]; } }
    }
  }

  lemma NameMirrored(k: Context, bound: Bound, depth: nat, id: Identifier)
    requires CompileName(k, bound, depth, id).Some?
    requires id.name in bound || id.name in k.modules ==> AllMirrored(k, bound, depth, Arguments(id, 0))
    ensures NameMirrors(k, bound, id, CompileName(k, bound, depth, id).value.e)
  {
    hide Compile, Mirrors, Arguments, CompileUse, UseMirrors;
    if id.name in bound || id.name in k.modules {
      if !StartsStatic(k, bound, id) { UseMirrored(k, bound, depth, id); }
    } else {
      FoundIff(k.rules, id.name);
      if Find(k.rules, id.name).Some? {
        var j := FoundFirst(k.rules, id.name);
        assert FirstNamed(k.rules, id.name, j);
      } else {
        var i := IndexOf(Sources.Names(k.externals), id.name).value;
        SymbolIff(k.externals, id.name, k.externals[i].1);
        SymbolFirst(k.externals, id.name);
      }
    }
  }

  lemma SymbolFirst(externals: seq<(string, Type)>, name: string)
    requires IndexOf(Sources.Names(externals), name).Some?
    ensures FirstNamed(externals, name, IndexOf(Sources.Names(externals), name).value)
  {
    var names := Sources.Names(externals);
    var i := IndexOf(names, name).value;
    forall m | 0 <= m < i ensures externals[m].0 != name { assert names[..i][m] == names[m]; }
  }

  // ----- Conditions -----

  lemma OperatorMirrored(k: Context, bound: Bound, depth: nat, e: Source)
    requires Sources.IsOperator(e) && AllMirrored(k, bound, depth + 1, Sources.Operands(e))
    ensures Mirrored(k, bound, depth, e)
  {
    hide Build, Mirrors, Compile, Sources.Operands;
    if Compile(k, bound, depth, e).Some? {
      RuleCompiling.Shallow(k, bound, depth, e);
      OperatorCompiles(k, bound, depth, e);
      var xs := CompileOperands(k, bound, depth + 1, e).value;
      forall j | 0 <= j < |xs| ensures Mirrors(k, bound, Sources.Operands(e)[j], xs[j].e) {
        assert Mirrored(k, bound, depth + 1, Sources.Operands(e)[j]);
      }
      assert Compile(k, bound, depth, e) == Build(k, e, xs) && AllMirror(k, bound, Sources.Operands(e), xs);
      BuiltMirrors(k, bound, e, xs);
    }
  }

  lemma SelectionMirrored(k: Context, bound: Bound, depth: nat, selection: SourceSelection)
    requires AllMirrored(k, bound, depth, RuleCompiling.NumberOfSelection(selection))
    requires CompileSelection(k, bound, depth, selection).Some?
    ensures SelectionMirrors(k, bound, selection, CompileSelection(k, bound, depth, selection).value)
  {
    hide Compile, Mirrors;
    if selection.NumberOf? { assert Mirrored(k, bound, depth, RuleCompiling.NumberOfSelection(selection)[0]); }
  }

  lemma TwoMirrored(k: Context, bound: Bound, depth: nat, e: Source, e': Source)
    requires AllMirrored(k, bound, depth, [e, e'])
    ensures Mirrored(k, bound, depth, e) && Mirrored(k, bound, depth, e')
  {
    assert Mirrored(k, bound, depth, [e, e'][0]) && Mirrored(k, bound, depth, [e, e'][1]);
  }

  /** The body of a `for` on variables. */
  ghost predicate TurnMirrors(k: Context, bound: Bound, e: Source, x: Expr)
    requires IsForVariables(e)
  {
    match e
    case For(_, _, each) => if each.Some? then Mirrors(k, bound, each.value, x) else x == Expr.Variable(None)
    case ForIn(_, _, from, to) =>
      x.VariableIn? && x.variable.None? && Mirrors(k, bound, from, x.from) && Mirrors(k, bound, to, x.to)
    case ForAt(_, _, offset) => x.VariableAt? && x.variable.None? && Mirrors(k, bound, offset, x.offset)
  }

  lemma TurnMirrored(k: Context, bound: Bound, depth: nat, e: Source)
    requires IsForVariables(e) && AllMirrored(k, bound, depth, RuleCompiling.TurnParts(e))
    requires CompileTurn(k, bound, depth, e).Some?
    ensures TurnMirrors(k, bound, e, CompileTurn(k, bound, depth, e).value)
  {
    hide Compile, Mirrors;
    match e
    case For(_, _, each) => if each.Some? { assert Mirrored(k, bound, depth, RuleCompiling.TurnParts(e)[0]); }
    case ForIn(_, _, from, to) => TwoMirrored(k, bound, depth, from, to);
    case ForAt(_, _, _) => assert Mirrored(k, bound, depth, RuleCompiling.TurnParts(e)[0]);
  }

  lemma ForMirrored(k: Context, bound: Bound, depth: nat, e: Source)
    requires IsForVariables(e) && AllMirrored(k, bound, depth + 1, RuleCompiling.NumberOfSelection(e.selection))
    requires AllMirrored(k, bound, depth + 1, RuleCompiling.TurnParts(e))
    ensures Mirrored(k, bound, depth, e)
  {
    hide CompileTurn, CompileSelection, SelectionMirrors, AllMirrored, AreChosen, VariablesOf, CompileName, CompileLoop;
    if Compile(k, bound, depth, e).Some? {
      SelectionMirrored(k, bound, depth + 1, e.selection);
      TurnMirrored(k, bound, depth + 1, e);
      VariablesMirror(k, e.patterns);
    }
  }

  lemma RulesMirrored(k: Context, bound: Bound, depth: nat, e: Source)
    requires e.ForRules? && AllMirrored(k, bound, depth + 1, RuleCompiling.NumberOfSelection(e.selection))
    ensures Mirrored(k, bound, depth, e)
  {
    hide CompileSelection, SelectionMirrors, AllMirrored, RulesChosenBy, RulesOf, Indexes, CountGlobal;
    if Compile(k, bound, depth, e).Some? {
      SelectionMirrored(k, bound, depth + 1, e.selection);
      RulesMirror(k, e.patterns, Compile(k, bound, depth, e).value.e);
    }
  }

  lemma IteratorMirrored(k: Context, bound: Bound, depth: nat, iter: SourceIterator)
    requires AllMirrored(k, bound, depth, RuleCompiling.PartsOfIterator(iter))
    requires CompileIterator(k, bound, depth, iter).Some?
    ensures IteratorMirrors(k, bound, iter, CompileIterator(k, bound, depth, iter).value.iter)
  {
    hide Compile, Mirrors, CompileUse, UseMirrors, Kept, IntoIterator;
    match iter
    case Iterable(id) => IterableMirrored(k, bound, depth, iter);
    case Between(from, to) => TwoMirrored(k, bound, depth, from, to);
    case Listed(items) =>
      var xs := CompileAll(k, bound, depth, items).value;
      forall j | 0 <= j < |items| ensures Mirrors(k, bound, items[j], xs[j].e) {
        assert Mirrored(k, bound, depth, items[j]);
      }
  }

  lemma IterableMirrored(k: Context, bound: Bound, depth: nat, iter: SourceIterator)
    requires iter.Iterable? && AllMirrored(k, bound, depth, Arguments(iter.id, 0))
    requires CompileIterator(k, bound, depth, iter).Some?
    ensures IteratorMirrors(k, bound, iter, CompileIterator(k, bound, depth, iter).value.iter)
  {
    hide Compile, Mirrors, CompileUse, UseMirrors, AllMirrored;
    if StartsStatic(k, bound, iter.id) { StaticUse(k, bound, depth, iter.id); } else { UseMirrored(k, bound, depth, iter.id); }
  }

  lemma StaticUse(k: Context, bound: Bound, depth: nat, id: Identifier)
    requires CompileUse(k, bound, depth, id).Some? && StartsStatic(k, bound, id)
    ensures CompileUse(k, bound, depth, id).value.start.None?
  {
    hide CompilePath, Compile;
  }

  ghost predicate BodyMirrored(k: Context, bound: Bound, depth: nat, e: Source)
    requires e.ForIdentifiers?
  {
    forall tys, inner :: AddAllBound(bound, e.names, tys) == Some(inner) ==> Mirrored(k, inner, depth, e.body)
  }

  lemma LoopMirrored(k: Context, bound: Bound, depth: nat, e: Source)
    requires e.ForIdentifiers? && BodyMirrored(k, bound, depth, e) && CompileLoop(k, bound, depth, e).Some?
    requires AllMirrored(k, bound, depth, RuleCompiling.NumberOfSelection(e.selection))
    requires AllMirrored(k, bound, depth, RuleCompiling.PartsOfIterator(e.iter))
    ensures Mirrors(k, bound, e, CompileLoop(k, bound, depth, e).value.e)
  {
    hide CompileSelection, CompileIterator, SelectionMirrors, IteratorMirrors, AllMirrored, AddAllBound, Binds, Compile;
    SelectionMirrored(k, bound, depth, e.selection);
    IteratorMirrored(k, bound, depth, e.iter);
    var tys := CompileIterator(k, bound, depth, e.iter).value.tys;
    var inner := AddAllBound(bound, e.names, tys).value;
    AddedBinds(bound, e.names, tys);
    assert Mirrored(k, inner, depth, e.body);
  }

  lemma LoopCompiles(k: Context, bound: Bound, depth: nat, e: Source)
    requires e.ForIdentifiers? && Compile(k, bound, depth, e).Some?
    ensures Compile(k, bound, depth, e) == CompileLoop(k, bound, depth + 1, e)
  {
    hide CompileLoop, CompileName;
  }

  lemma NamedMirrored(k: Context, bound: Bound, depth: nat, e: Source)
    requires e.Named?
    requires e.id.name in bound || e.id.name in k.modules ==> AllMirrored(k, bound, depth + 1, Arguments(e.id, 0))
    ensures Mirrored(k, bound, depth, e)
  {
    hide CompileName, NameMirrors, AllMirrored;
    if Compile(k, bound, depth, e).Some? { NameMirrored(k, bound, depth + 1, e.id); }
  }

  /** The parts in the same scope. */
  ghost predicate PartsMirrored(k: Context, bound: Bound, depth: nat, e: Source) {
    forall p :: p in RuleCompiling.PartsOf(k, bound.Keys, e) && p.scope == bound.Keys ==> Mirrored(k, bound, depth, p.e)
  }

  lemma GroupMirrored(k: Context, bound: Bound, depth: nat, e: Source, es: seq<Source>)
    requires PartsMirrored(k, bound, depth, e)
    requires forall p :: p in RuleCompiling.In(bound.Keys, es) ==> p in RuleCompiling.PartsOf(k, bound.Keys, e)
    ensures AllMirrored(k, bound, depth, es)
  {
    hide Mirrored, RuleCompiling.PartsOf;
    var ps := RuleCompiling.In(bound.Keys, es);
    forall j | 0 <= j < |es| ensures Mirrored(k, bound, depth, es[j]) {
      assert ps[j] in ps && ps[j] == RuleCompiling.Part(es[j], bound.Keys);
    }
  }

  lemma MirroredAround(k: Context, bound: Bound, depth: nat, e: Source)
    requires PartsMirrored(k, bound, depth + 1, e) && (e.ForIdentifiers? ==> BodyMirrored(k, bound, depth + 1, e))
    ensures Mirrored(k, bound, depth, e)
  {
    hide AllMirrored, BodyMirrored, Compile, Mirrors, CompileLoop;
    var d := depth + 1;
    if Sources.IsOperator(e) {
      GroupMirrored(k, bound, d, e, Sources.Operands(e));
      OperatorMirrored(k, bound, depth, e);
    } else if IsForVariables(e) {
      GroupMirrored(k, bound, d, e, RuleCompiling.NumberOfSelection(e.selection));
      GroupMirrored(k, bound, d, e, RuleCompiling.TurnParts(e));
      ForMirrored(k, bound, depth, e);
    } else {
      match e
      case ForIdentifiers(selection, _, iter, _) =>
        GroupMirrored(k, bound, d, e, RuleCompiling.NumberOfSelection(selection));
        GroupMirrored(k, bound, d, e, RuleCompiling.PartsOfIterator(iter));
        if Compile(k, bound, depth, e).Some? {
          LoopCompiles(k, bound, depth, e);
          LoopMirrored(k, bound, d, e);
        }
      case ForRules(selection, patterns) =>
        GroupMirrored(k, bound, d, e, RuleCompiling.NumberOfSelection(selection));
        RulesMirrored(k, bound, depth, e);
      case Named(id) =>
        if id.name in bound || id.name in k.modules { GroupMirrored(k, bound, d, e, Arguments(id, 0)); }
        NamedMirrored(k, bound, depth, e);
    }
  }

  /** A compiled condition has the shape of its source. */
  lemma {:induction false} CompiledMirrors(k: Context, bound: Bound, depth: nat, e: Source)
    ensures Mirrored(k, bound, depth, e)
    decreases e
  {
    hide Mirrored, AddAllBound;
    var d := depth + 1;
    var ps := RuleCompiling.PartsOf(k, bound.Keys, e);
    forall p | p in ps && p.scope == bound.Keys ensures Mirrored(k, bound, d, p.e) { CompiledMirrors(k, bound, d, p.e); }
    if e.ForIdentifiers? {
      forall tys, inner | AddAllBound(bound, e.names, tys) == Some(inner) ensures Mirrored(k, inner, d, e.body) {
        CompiledMirrors(k, inner, d, e.body);
      }
    }
    MirroredAround(k, bound, depth, e);
  }
}
