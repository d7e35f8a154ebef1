/** The compiler of a rule (`compiler/rule.rs`, and the recursion of `compiler/expression.rs` over it): its methods,
    which count the depth and bind and unbind names as they go, against the function `Compile`. */
module RuleCompilers {
  import opened Base
  import opened Values
  import opened Types
  import opened Sources
  import opened Expressions
  import opened Compiling
  import Typing
  import Shapes
  import opened RuleCompiling
  import opened Scoping

  /** What a path still to follow leads to, after the arguments and operations already left to the scan. */
  function Resume(arguments: seq<Expr>, ops: seq<Op>, rest: Option<Path>): Option<Path> {
    if rest.None? then None
    else Some(rest.value.(arguments := arguments + rest.value.arguments, ops := ops + rest.value.ops))
  }

  lemma FirstArguments(id: Identifier, i: nat)
    requires i < |id.path|
    ensures Arguments(id, i) == StepArguments(id, i) + Arguments(id, i + 1)
  {
  }

  lemma NoArguments(id: Identifier)
    ensures Arguments(id, |id.path|) == []
  {
  }

  class RuleCompiler {
    const context: Context
    var used: seq<bool>
    var boundIdentifiers: Bound
    var ruleWildcardUses: seq<string>
    var conditionDepth: nat
    var nbWarnings: nat

    predicate Valid()
      reads this
    {
      |used| == |context.variables|
    }

    constructor (context: Context)
      ensures this.context == context && Valid() && Trace() == NOTHING
      ensures boundIdentifiers == map[] && conditionDepth == 0
    {
      this.context := context;
      used := seq(|context.variables|, _ => false);
      boundIdentifiers := map[];
      ruleWildcardUses := [];
      conditionDepth := 0;
      nbWarnings := 0;
    }

    function Trace(): Effects
      reads this
    {
      Effects(ruleWildcardUses, Marked(used))
    }

    /** The names bound and the depth are as they were, and the effects are added. Bound names always have the indexes
        `0..n-1` (`Dense`). */
    twostate predicate Did(effects: Effects)
      reads this
    {
      && Valid() && boundIdentifiers == old(boundIdentifiers) && conditionDepth == old(conditionDepth)
      && Trace() == Join(old(Trace()), effects)
    }

    // ----- Variables -----

    method MarkUsed(i: nat)
      requires Valid() && i < |used|
      modifies this`used
      ensures Did(Effects([], SetOf([i])))
    {
      MarkOne(used, i);
      JoinUse(Trace(), i);
      used := used[i := true];
    }

    method FindNamedVariable(name: string) returns (r: Option<nat>)
      requires Valid()
      modifies this`used
      ensures r == IndexOf(context.variables, name)
      ensures Did(if r.Some? then Effects([], SetOf([r.value])) else NOTHING)
    {
      for i := 0 to |context.variables|
        invariant name !in context.variables[..i] && used == old(used)
      {
        if context.variables[i] == name {
          FirstIndex(context.variables, name, i);
          MarkUsed(i);
          return Some(i);
        }
      }
      JoinIsMonoid(Trace(), NOTHING, NOTHING);
      return None;
    }

    method FindVariable(name: string) returns (r: Option<VariableIndex>)
      requires Valid()
      modifies this`used
      ensures r == VariableNamed(context, name)
      ensures Did(if r.Some? && r.value.Some? then Effects([], SetOf([r.value.value])) else NOTHING)
    {
      if name == "" { return Some(None); }
      var i := FindNamedVariable(name);
      r := if i.Some? then Some(i) else None;
    }

    // ----- Bound identifiers -----

    method AddBoundedIdentifier(name: string, ty: ModuleType) returns (ok: bool)
      modifies this`boundIdentifiers
      ensures ok == AddBound(old(boundIdentifiers), name, ty).Some?
      ensures ok && Dense(old(boundIdentifiers)) ==> Dense(boundIdentifiers)
      ensures ok ==> Some(boundIdentifiers) == AddBound(old(boundIdentifiers), name, ty)
    {
      var index := |boundIdentifiers|;
      ok := name !in boundIdentifiers;
      if ok && Dense(boundIdentifiers) { AddDense(boundIdentifiers, name, ty); }
      boundIdentifiers := boundIdentifiers[name := BoundName(ty, index)];
    }

    method AddWarning() returns (ok: bool)
      modifies this`nbWarnings
      ensures ok == !context.failOnWarnings
    {
      if context.failOnWarnings { return false; }
      nbWarnings := nbWarnings + 1;
      return true;
    }

    method ToBoolExpr(ty: Type) returns (ok: bool)
      modifies this`nbWarnings
      ensures ok == BoolOk(context, ty)
    {
      if ty.BytesType? { ok := AddWarning(); } else { ok := true; }
    }

    // ----- Sets -----

    method CompileVariableSet(patterns: seq<Pattern>) returns (r: Option<seq<nat>>)
      requires Valid()
      modifies this`used
      ensures r == VariablesOf(context.variables, patterns)
      ensures r.Some? ==> Did(Effects([], SetOf(r.value)))
    {
      if patterns == [] {
        if context.variables == [] { return None; }
        MarkAll(used);
        used := seq(|used|, _ => true);
        r := Some(Upto(|context.variables|));
      } else {
        r := CompilePatterns(patterns);
      }
    }

    method CompilePatterns(patterns: seq<Pattern>) returns (r: Option<seq<nat>>)
      requires Valid()
      modifies this`used
      ensures r == VariablesOfSome(context.variables, patterns)
      ensures r.Some? ==> Did(Effects([], SetOf(r.value)))
    {
      var indexes: seq<nat> := [];
      assert patterns[0..] == patterns;
      JoinIsMonoid(Trace(), NOTHING, NOTHING);
      PrependNothing(VariablesOfSome(context.variables, patterns));
      for j := 0 to |patterns|
        invariant VariablesOfSome(context.variables, patterns)
               == Prepend(indexes, VariablesOfSome(context.variables, patterns[j..]))
        invariant Did(Effects([], SetOf(indexes)))
      {
        assert patterns[j..][0] == patterns[j] && patterns[j..][1..] == patterns[j + 1..];
        var found := CompilePattern(patterns[j]);
        if found == [] { return None; }
        PrependTwice(indexes, found, VariablesOfSome(context.variables, patterns[j + 1..]));
        JoinUses(old(Trace()), indexes, found);
        indexes := indexes + found;
      }
      assert indexes + [] == indexes;
      return Some(indexes);
    }

    /** The variables that one pattern selects, which are marked as used. */
    method CompilePattern(p: Pattern) returns (found: seq<nat>)
      requires Valid()
      modifies this`used
      ensures found == Selected(context.variables, p)
      ensures Did(Effects([], SetOf(found)))
    {
      if p.isWildcard {
        found := CompileWildcard(p.name);
      } else {
        var i := FindNamedVariable(p.name);
        found := if i.Some? then [i.value] else [];
      }
    }

    method CompileWildcard(prefix: string) returns (found: seq<nat>)
      requires Valid()
      modifies this`used
      ensures found == Prefixed(context.variables, prefix, 0)
      ensures Did(Effects([], SetOf(found)))
    {
      found := [];
      JoinIsMonoid(Trace(), NOTHING, NOTHING);
      for i := 0 to |context.variables|
        invariant found + Prefixed(context.variables, prefix, i) == Prefixed(context.variables, prefix, 0)
        invariant Did(Effects([], SetOf(found)))
      {
        PrefixStep(context.variables, prefix, i, found);
        if prefix <= context.variables[i] {
          JoinUses(old(Trace()), found, [i]);
          MarkUsed(i);
          found := found + [i];
        }
      }
    }

    /** The indexes of the rules of a set and the number of global ones. Wildcards are kept, so that no rule that they
        would match is added later. */
    method CompileRuleSet(patterns: seq<Pattern>) returns (r: Option<(seq<nat>, nat)>)
      requires Valid()
      modifies this`ruleWildcardUses
      ensures r.Some? == RulesOf(context.rules, patterns).Some?
      ensures r.Some? ==> var rules := RulesOf(context.rules, patterns).value; r.value == (Indexes(rules), CountGlobal(rules))
      ensures r.Some? ==> Did(Effects(WildcardsIn(patterns), {}))
    {
      ghost var rules: seq<Option<nat>> := [];
      var indexes: seq<nat>, alreadyMatched: nat := [], 0;
      assert patterns[0..] == patterns;
      PrependNothing(RulesOf(context.rules, patterns));
      for j := 0 to |patterns|
        invariant RulesOf(context.rules, patterns) == Prepend(rules, RulesOf(context.rules, patterns[j..]))
        invariant indexes == Indexes(rules) && alreadyMatched == CountGlobal(rules)
        invariant ruleWildcardUses + WildcardsIn(patterns[j..]) == old(ruleWildcardUses) + WildcardsIn(patterns)
      {
        assert patterns[j..][0] == patterns[j] && patterns[j..][1..] == patterns[j + 1..];
        var p := patterns[j];
        var found := SelectedRules(context.rules, p);
        if found == [] { return None; }
        PrependTwice(rules, found, RulesOf(context.rules, patterns[j + 1..]));
        SetAppend(rules, found);
        rules := rules + found;
        indexes := indexes + Indexes(found);
        alreadyMatched := alreadyMatched + CountGlobal(found);
        ghost var rest := WildcardsIn(patterns[j + 1..]);
        if p.isWildcard {
          assert ruleWildcardUses + ([p.name] + rest) == ruleWildcardUses + [p.name] + rest;
          ruleWildcardUses := ruleWildcardUses + [p.name];
        } else {
          assert [] + rest == rest;
        }
      }
      assert rules + [] == rules && ruleWildcardUses + [] == ruleWildcardUses;
      assert Trace().uses + {} == Trace().uses;
      return Some((indexes, alreadyMatched));
    }

    // ----- Conditions -----

    /** `compile_expression` */
    method CompileExpression(e: Source) returns (r: Option<Typed>)
      requires Valid()
      modifies this
      ensures r == Compile(context, old(boundIdentifiers), old(conditionDepth), e)
      ensures r.Some? ==> Did(EffectsOf(context, old(boundIdentifiers.Keys), e))
      ensures Typing.Decides(context, old(boundIdentifiers), old(conditionDepth), e, r)
      ensures r.Some? ==> Shapes.Mirrors(context, old(boundIdentifiers), e, r.value.e)
      decreases e, 5
    {
      Typing.CompileDecides(context, boundIdentifiers, conditionDepth, e);
      Shapes.CompiledMirrors(context, boundIdentifiers, conditionDepth, e);
      hide EffectsOf, CompileTurn, CompileSelection, CompileLoop, CompileName, CompileOperands, Build, VariablesOf, RulesOf,
        Typing.Decides, Typing.OperatorDecides, Shapes.Mirrors;
      conditionDepth := conditionDepth + 1;
      if conditionDepth >= context.maxDepth { return None; }
      if Sources.IsOperator(e) {
        r := CompileOperator(e);
      } else if IsForVariables(e) {
        r := CompileFor(e);
      } else {
        match e {
          case ForIdentifiers(_, _, _, _) => r := CompileForIdentifiers(e);
          case ForRules(_, _) => r := CompileForRules(e);
          case Named(id) => r := CompileIdentifier(e);
        }
      }
      if r.None? { return; }
      conditionDepth := conditionDepth - 1;
    }

    method CompileOperator(e: Source) returns (r: Option<Typed>)
      requires Valid() && Sources.IsOperator(e)
      modifies this
      ensures var xs := CompileOperands(context, old(boundIdentifiers), old(conditionDepth), e);
              && (r == if xs.None? then None else Build(context, e, xs.value))
              && Typing.OperatorDecides(context, e, xs, r)
      ensures r.Some? ==> Did(EffectsOf(context, old(boundIdentifiers.Keys), e))
      decreases e, 4
    {
      hide Compile, EffectsOf, Sum, Marked, AllSome, CompileOperands, BuildPlain, BuildOnVariable, Typing.OperatorDecides,
        Typing.Decides, SumIn, Shapes.Mirrors, VariableNamed, Sources.Operands, IsOnVariable;
      ghost var scope := boundIdentifiers.Keys;
      Typing.BuildDecides(context, e, CompileOperands(context, boundIdentifiers, conditionDepth, e));
      var known := UseVariable(e);
      if !known { return None; }
      OperandsCompiled(context, boundIdentifiers, conditionDepth, e);
      var xs := CompileList(Sources.Operands(e), e);
      if xs.None? { return None; }
      var ok := CheckBooleans(e, xs.value);
      r := Build(context, e, xs.value);
      if r.Some? {
        EffectsAre(context, scope, e, Sources.Operands(e));
        OwnFirst(old(Trace()), OwnEffects(context, e), SumIn(context, scope, Sources.Operands(e)));
      }
    }

    /** An operator on a variable uses it. */
    method UseVariable(e: Source) returns (known: bool)
      requires Valid() && Sources.IsOperator(e)
      modifies this`used
      ensures known <==> IsOnVariable(e) ==> VariableNamed(context, e.name).Some?
      ensures known ==> Did(OwnEffects(context, e))
    {
      hide VariableNamed;
      known := true;
      JoinIsMonoid(Trace(), NOTHING, NOTHING);
      if IsOnVariable(e) {
        var x := FindVariable(e.name);
        known := x.Some?;
      }
    }

    /** The warnings on bytes used as booleans. */
    method CheckBooleans(e: Source, xs: seq<Typed>) returns (ok: bool)
      modifies this`nbWarnings
      ensures e.Conj? || e.Disj? || e.Negation? ==> ok == forall j :: 0 <= j < |xs| ==> BoolOk(context, xs[j].ty)
    {
      ok := true;
      if e.Conj? || e.Disj? || e.Negation? {
        for j := 0 to |xs|
          invariant ok && forall m :: 0 <= m < j ==> BoolOk(context, xs[m].ty)
        {
          ok := ToBoolExpr(xs[j].ty);
          if !ok { return; }
        }
      }
    }

    method CompileList(es: seq<Source>, ghost top: Source) returns (r: Option<seq<Typed>>)
      requires Valid() && forall j :: 0 <= j < |es| ==> es[j] < top
      modifies this
      ensures r == AllSome(Compiled(context, old(boundIdentifiers), old(conditionDepth), es))
      ensures r.Some? ==> Did(SumIn(context, old(boundIdentifiers.Keys), es))
      decreases top, 1
    {
      ghost var all := Compiled(context, boundIdentifiers, conditionDepth, es);
      ghost var effects := EffectsIn(context, boundIdentifiers.Keys, es);
      var ok, xs := CompileEach(es, top, all, effects);
      if !ok { return None; }
      AllSomeIs(all, xs);
      return Some(xs);
    }

    method CompileEach(es: seq<Source>, ghost top: Source, ghost all: seq<Option<Typed>>, ghost effects: seq<Effects>)
      returns (ok: bool, xs: seq<Typed>)
      requires Valid() && forall j :: 0 <= j < |es| ==> es[j] < top
      requires all == Compiled(context, boundIdentifiers, conditionDepth, es)
      requires effects == EffectsIn(context, boundIdentifiers.Keys, es)
      modifies this
      ensures ok ==> |xs| == |es| && (forall j :: 0 <= j < |es| ==> all[j] == Some(xs[j])) && Did(Sum(effects))
      ensures !ok ==> exists j :: 0 <= j < |es| && all[j].None?
      decreases top, 0
    {
      hide Compile, EffectsOf, Sum, Marked, Typing.Decides, Shapes.Mirrors, Collected;
      ok, xs := true, [];
      ghost var before, done := Trace(), NOTHING;
      JoinIsMonoid(before, NOTHING, NOTHING);
      NothingCollected(all, effects);
      for j := 0 to |es|
        invariant |xs| == j && Collected(all, effects, xs, done) && Did(done)
      {
        var x := CompileExpression(es[j]);
        assert x == all[j];
        if x.None? { return false, xs; }
        JoinIsMonoid(before, done, effects[j]);
        CollectedMore(all, effects, xs, done);
        done := Join(done, effects[j]);
        xs := xs + [x.value];
      }
      CollectedAll(all, effects, xs, done);
    }

    method CompileForSelection(selection: SourceSelection) returns (r: Option<ForSelection>)
      requires Valid()
      modifies this
      ensures r == CompileSelection(context, old(boundIdentifiers), old(conditionDepth), selection)
      ensures r.Some? ==> Did(SumIn(context, old(boundIdentifiers.Keys), NumberOfSelection(selection)))
      decreases selection, 0
    {
      JoinIsMonoid(Trace(), NOTHING, NOTHING);
      SumInOne(context, boundIdentifiers.Keys, if selection.NumberOf? then selection.number else Source.Filesize);
      match selection {
        case AnyOf => r := Some(SelectAny);
        case AllOf => r := Some(SelectAll);
        case NoneOf => r := Some(SelectNone);
        case NumberOf(number, asPercent) =>
          var x := CompileExpression(number);
          r := if x.None? || !x.value.ty.IntegerType? then None else Some(SelectExpr(x.value.e, asPercent));
      }
    }

    /** The body of a `for` on variables. */
    method CompileBody(e: Source) returns (r: Option<Expr>)
      requires Valid() && IsForVariables(e)
      modifies this
      ensures r == CompileTurn(context, old(boundIdentifiers), old(conditionDepth), e)
      ensures r.Some? ==> Did(SumIn(context, old(boundIdentifiers.Keys), TurnParts(e)))
      decreases e, 3
    {
      hide Compile, EffectsOf;
      ghost var bound, depth := boundIdentifiers, conditionDepth;
      var xs := CompileList(TurnParts(e), e);
      ghost var all := Compiled(context, bound, depth, TurnParts(e));
      match e {
        case For(_, _, each) =>
          if each.None? { return Some(Expr.Variable(None)); }
          assert all[0] == Compile(context, bound, depth, each.value);
          if xs.None? { return None; }
          var ok := ToBoolExpr(xs.value[0].ty);
          r := if ok then Some(xs.value[0].e) else None;
        case ForIn(_, _, from, to) =>
          assert all[0] == Compile(context, bound, depth, from) && all[1] == Compile(context, bound, depth, to);
          if xs.None? { return None; }
          assert xs.value == [xs.value[0], xs.value[1]];
          r := if AllAre(xs.value, IntegerType) then Some(Expr.VariableIn(None, xs.value[0].e, xs.value[1].e)) else None;
        case ForAt(_, _, offset) =>
          assert all[0] == Compile(context, bound, depth, offset);
          if xs.None? { return None; }
          r := if xs.value[0].ty.IntegerType? then Some(Expr.VariableAt(None, xs.value[0].e)) else None;
      }
    }

    /** The bounds come before the selection, and a body after the set. */
    method CompileFor(e: Source) returns (r: Option<Typed>)
      requires Valid() && IsForVariables(e)
      modifies this
      ensures var k, bound, depth := context, old(boundIdentifiers), old(conditionDepth);
              var selection, variables, turn :=
                CompileSelection(k, bound, depth, e.selection), VariablesOf(k.variables, e.patterns), CompileTurn(k, bound, depth, e);
              r == if selection.None? || variables.None? || turn.None? then None
                   else Some(Typed(Expr.For(selection.value, variables.value, turn.value), BooleanType))
      ensures r.Some? ==> Did(EffectsOf(context, old(boundIdentifiers.Keys), e))
      decreases e, 4
    {
      hide Compile, EffectsOf, CompileTurn, CompileSelection;
      ghost var before, scope := Trace(), boundIdentifiers.Keys;
      ghost var parts, number := SumIn(context, scope, TurnParts(e)), SumIn(context, scope, NumberOfSelection(e.selection));
      var turn: Option<Expr> := None;
      if !e.For? {
        turn := CompileBody(e);
        if turn.None? { return None; }
      }
      var selection := CompileForSelection(e.selection);
      if selection.None? { return None; }
      var variables := CompileVariableSet(e.patterns);
      if variables.None? { return None; }
      ghost var own := Effects([], SetOf(variables.value));
      if e.For? {
        turn := CompileBody(e);
        if turn.None? { return None; }
        SelectedThenBody(before, number, own, parts);
      } else {
        BodyThenSelected(before, parts, number, own);
      }
      ForEffects(context, scope, e);
      return Some(Typed(Expr.For(selection.value, variables.value, turn.value), BooleanType));
    }

    method CompileForRules(e: Source) returns (r: Option<Typed>)
      requires Valid() && e.ForRules?
      modifies this
      ensures var s, rules :=
                CompileSelection(context, old(boundIdentifiers), old(conditionDepth), e.selection),
                RulesOf(context.rules, e.patterns);
              r == if s.None? || rules.None? then None
                   else Some(Typed(Expr.ForRules(s.value, Indexes(rules.value), CountGlobal(rules.value)), BooleanType))
      ensures r.Some? ==> Did(EffectsOf(context, old(boundIdentifiers.Keys), e))
      decreases e, 4
    {
      hide Compile, EffectsOf, CompileSelection;
      ghost var before, scope := Trace(), boundIdentifiers.Keys;
      var selection := CompileForSelection(e.selection);
      if selection.None? { return None; }
      var rules := CompileRuleSet(e.patterns);
      if rules.None? { return None; }
      EffectsAre(context, scope, e, NumberOfSelection(e.selection));
      JoinIsMonoid(before, SumIn(context, scope, NumberOfSelection(e.selection)), OwnEffects(context, e));
      return Some(Typed(Expr.ForRules(selection.value, rules.value.0, rules.value.1), BooleanType));
    }

    // ----- Loops on identifiers -----

    method AddBoundedIdentifiers(names: seq<string>, tys: seq<ModuleType>) returns (ok: bool)
      modifies this`boundIdentifiers
      ensures ok == AddAllBound(old(boundIdentifiers), names, tys).Some?
      ensures ok ==> Some(boundIdentifiers) == AddAllBound(old(boundIdentifiers), names, tys)
    {
      if |names| != |tys| { return false; }
      assert names[0..] == names && tys[0..] == tys;
      for j := 0 to |names|
        invariant AddAllBound(boundIdentifiers, names[j..], tys[j..]) == AddAllBound(old(boundIdentifiers), names, tys)
      {
        assert names[j..][0] == names[j] && names[j..][1..] == names[j + 1..];
        assert tys[j..][0] == tys[j] && tys[j..][1..] == tys[j + 1..];
        ok := AddBoundedIdentifier(names[j], tys[j]);
        if !ok { return; }
      }
      ok := true;
    }

    method RemoveBoundedIdentifiers(names: seq<string>)
      modifies this`boundIdentifiers
      ensures boundIdentifiers == old(boundIdentifiers) - NameSet(names)
    {
      for j := 0 to |names|
        invariant boundIdentifiers == old(boundIdentifiers) - NameSet(names[..j])
      {
        assert names[..j + 1] == names[..j] + [names[j]];
        assert NameSet(names[..j + 1]) == NameSet(names[..j]) + {names[j]};
        boundIdentifiers := boundIdentifiers - {names[j]};
      }
      assert names[..|names|] == names;
    }

    /** The iterator is compiled in the outer scope, and its names are bound for the body only. */
    method CompileForIdentifiers(e: Source) returns (r: Option<Typed>)
      requires Valid() && e.ForIdentifiers?
      modifies this
      ensures r == CompileLoop(context, old(boundIdentifiers), old(conditionDepth), e)
      ensures r.Some? ==> Did(EffectsOf(context, old(boundIdentifiers.Keys), e))
      decreases e, 4
    {
      hide Compile, EffectsOf, CompileSelection, CompileIterator, AddAllBound, Typing.Decides, Shapes.Mirrors;
      ghost var before, bound, scope := Trace(), boundIdentifiers, boundIdentifiers.Keys;
      ghost var number, parts := SumIn(context, scope, NumberOfSelection(e.selection)), SumIn(context, scope, PartsOfIterator(e.iter));
      var selection := CompileForSelection(e.selection);
      if selection.None? { return None; }
      var turning := CompileForIterator(e);
      if turning.None? { return None; }
      var added := AddBoundedIdentifiers(e.names, turning.value.tys);
      if !added { return None; }
      AddedKeys(bound, e.names, turning.value.tys);
      var body := CompileExpression(e.body);
      if body.None? { return None; }
      RemovedKeys(bound, e.names, turning.value.tys);
      RemoveBoundedIdentifiers(e.names);
      var ok := ToBoolExpr(body.value.ty);
      if !ok { return None; }
      LoopEffects(context, scope, e);
      ThreeJoined(before, number, parts, EffectsOf(context, scope + NameSet(e.names), e.body));
      return Some(Typed(Expr.ForIdentifiers(selection.value, turning.value.iter, body.value.e), BooleanType));
    }

    method CompileForIterator(e: Source) returns (r: Option<Turning>)
      requires Valid() && e.ForIdentifiers?
      modifies this
      ensures r == CompileIterator(context, old(boundIdentifiers), old(conditionDepth), e.iter)
      ensures r.Some? ==> Did(SumIn(context, old(boundIdentifiers.Keys), PartsOfIterator(e.iter)))
      decreases e, 3
    {
      hide Compile, EffectsOf, CompileUse;
      ghost var bound, depth := boundIdentifiers, conditionDepth;
      if e.iter.Iterable? {
        var use := CompileModuleUse(e.iter.id);
        r := if use.None? then None else IntoIterator(use.value);
        return;
      }
      var items := if e.iter.Between? then [e.iter.from, e.iter.to] else e.iter.items;
      var xs := CompileList(items, e);
      ghost var all := Compiled(context, bound, depth, items);
      match e.iter {
        case Between(from, to) =>
          assert all[0] == Compile(context, bound, depth, from) && all[1] == Compile(context, bound, depth, to);
          if xs.None? { return None; }
          assert xs.value == [xs.value[0], xs.value[1]];
          r := if AllAre(xs.value, IntegerType) then Some(Turning(Range(xs.value[0].e, xs.value[1].e), [Scalar(IntegerType)]))
               else None;
        case Listed(_) =>
          ListCompiled(context, bound, depth, items);
          if xs.None? { return None; }
          var ty := ListType(xs.value);
          r := if ty.None? then None else Some(Turning(List(Exprs(xs.value)), [Scalar(ty.value)]));
      }
    }

    // ----- Names -----

    /** Follow a path step by step, from a value known now or a type. */
    method CompileModulePath(id: Identifier, start: nat, current: Current, immediate: Option<StaticValue>)
      returns (r: Option<Path>)
      requires Valid() && start <= |id.path|
      modifies this
      ensures r == CompilePath(context, old(boundIdentifiers), old(conditionDepth), id, start, current, immediate)
      ensures r.Some? ==> Did(SumIn(context, old(boundIdentifiers.Keys), Arguments(id, start)))
      decreases id, 2
    {
      hide Compile, EffectsOf, CompilePath, SumIn, StepArguments, Arguments, StepOps, StepType, OpOf;
      ghost var k, bound, depth, scope, before := context, boundIdentifiers, conditionDepth, boundIdentifiers.Keys, Trace();
      var use := new ModuleUse(current, immediate);
      ghost var done := NOTHING;
      JoinIsMonoid(before, NOTHING, NOTHING);
      JoinIsMonoid(SumIn(k, scope, Arguments(id, start)), NOTHING, NOTHING);
      ResumeNothing(CompilePath(k, bound, depth, id, start, current, immediate));
      for i := start to |id.path|
        invariant fresh(use) && Valid()
        invariant CompilePath(k, bound, depth, id, start, current, immediate)
               == Resume(use.arguments, use.ops, CompilePath(k, bound, depth, id, i, use.current, use.immediate))
        invariant Did(done) && SumIn(k, scope, Arguments(id, start)) == Join(done, SumIn(k, scope, Arguments(id, i)))
      {
        PathStep(k, bound, depth, id, i, use.current, use.immediate);
        var args := CompileStepArguments(id, i);
        if args.None? { return None; }
        ghost var arguments, ops := use.arguments, use.ops;
        var ok := use.AddOperation(id.path[i], args.value);
        if !ok { return None; }
        ResumeTwice(arguments, ops, Exprs(args.value), StepOps(use.current, id.path[i]),
                    CompilePath(k, bound, depth, id, i + 1, use.current, use.immediate));
        FirstArguments(id, i);
        SumInAppend(k, scope, StepArguments(id, i), Arguments(id, i + 1));
        ghost var step := SumIn(k, scope, StepArguments(id, i));
        JoinIsMonoid(done, step, SumIn(k, scope, Arguments(id, i + 1)));
        JoinIsMonoid(before, done, step);
        done := Join(done, step);
      }
      PathEnd(k, bound, depth, id, use.current, use.immediate, use.arguments, use.ops);
      NoArguments(id);
      SumInOne(k, scope, Source.Filesize);
      JoinIsMonoid(done, NOTHING, NOTHING);
      return Some(Path(use.current, use.immediate, use.arguments, use.ops));
    }

    method CompileStepArguments(id: Identifier, i: nat) returns (r: Option<seq<Typed>>)
      requires Valid() && i < |id.path|
      modifies this
      ensures r == CompileStep(context, old(boundIdentifiers), old(conditionDepth), id, i)
      ensures r.Some? ==> Did(SumIn(context, old(boundIdentifiers.Keys), StepArguments(id, i)))
      decreases id, 1
    {
      hide Compile, EffectsOf, CompileStep, Sum, AllSome, Marked, Typing.Decides, Shapes.Mirrors, StepArguments, Collected;
      var es := StepArguments(id, i);
      ghost var all := Compiled(context, boundIdentifiers, conditionDepth, es);
      ghost var effects := EffectsIn(context, boundIdentifiers.Keys, es);
      ghost var before, done := Trace(), NOTHING;
      StepCompiled(context, boundIdentifiers, conditionDepth, id, i);
      JoinIsMonoid(before, NOTHING, NOTHING);
      NothingCollected(all, effects);
      var xs := [];
      for j := 0 to |es|
        invariant |xs| == j && Collected(all, effects, xs, done) && Did(done)
      {
        var x := CompileExpression(es[j]);
        assert x == all[j];
        if x.None? { return None; }
        JoinIsMonoid(before, done, effects[j]);
        CollectedMore(all, effects, xs, done);
        done := Join(done, effects[j]);
        xs := xs + [x.value];
      }
      CollectedAll(all, effects, xs, done);
      AllSomeIs(all, xs);
      return Some(xs);
    }

    /** The use of a bound identifier or of a module. */
    method CompileModuleUse(id: Identifier) returns (r: Option<Use>)
      requires Valid()
      modifies this
      ensures r == CompileUse(context, old(boundIdentifiers), old(conditionDepth), id)
      ensures r.Some? ==> Did(SumIn(context, old(boundIdentifiers.Keys), Arguments(id, 0)))
      decreases id, 3
    {
      hide Compile, EffectsOf, CompilePath;
      if id.name in boundIdentifiers {
        var b := boundIdentifiers[id.name];
        var p := CompileModulePath(id, 0, AtType(b.ty), None);
        r := if p.None? then None else Some(Use(Some(BoundedStack(b.index)), p.value));
        return;
      }
      if id.name !in context.modules || id.path == [] || !id.path[0].Field? { return None; }
      var m := context.modules[id.name];
      var field := id.path[0].field;
      if field in m.statics {
        assert StepArguments(id, 0) == [] && Arguments(id, 0) == Arguments(id, 1);
        var p := CompileModulePath(id, 1, AtValue(m.statics[field]), Some(m.statics[field]));
        r := if p.None? then None else Some(Use(None, p.value));
      } else {
        var p := CompileModulePath(id, 0, AtType(ObjectType(m.dynamic)), None);
        r := if p.None? then None else Some(Use(Some(ModuleValueAt(m.index)), p.value));
      }
    }

    method CompileIdentifier(e: Source) returns (r: Option<Typed>)
      requires Valid() && e.Named?
      modifies this
      ensures r == CompileName(context, old(boundIdentifiers), old(conditionDepth), e.id)
      ensures r.Some? ==> Did(EffectsOf(context, old(boundIdentifiers.Keys), e))
      decreases e, 4
    {
      hide Compile, EffectsOf, CompileUse;
      ghost var scope := boundIdentifiers.Keys;
      var id := e.id;
      if id.name in boundIdentifiers || id.name in context.modules {
        EffectsAre(context, scope, e, Arguments(id, 0));
        JoinIsMonoid(SumIn(context, scope, Arguments(id, 0)), NOTHING, NOTHING);
        var use := CompileModuleUse(id);
        r := if use.None? then None else IntoExpression(use.value);
        return;
      }
      EffectsAre(context, scope, e, []);
      SumInOne(context, scope, Source.Filesize);
      JoinIsMonoid(Trace(), NOTHING, NOTHING);
      var rule := Find(context.rules, id.name);
      if rule.Some? {
        if id.path != [] { return None; }
        r := if rule.value.Some? then Some(Typed(RuleResult(rule.value.value), BooleanType))
             else Some(Typed(Expr.Const(Boolean(true)), BooleanType));
      } else {
        var symbol := IndexOf(Names(context.externals), id.name);
        r := if symbol.None? then None else Some(Typed(ExternalSymbol(symbol.value), context.externals[symbol.value].1));
      }
    }
  }

  /** The use of a module (`ModuleUse` in `compiler/module.rs`): where its path has got. */
  class ModuleUse {
    var current: Current
    var immediate: Option<StaticValue>
    var arguments: seq<Expr>
    var ops: seq<Op>

    constructor (current: Current, immediate: Option<StaticValue>)
      ensures this.current == current && this.immediate == immediate && arguments == [] && ops == []
    {
      this.current := current;
      this.immediate := immediate;
      arguments := [];
      ops := [];
    }

    /** One more step, whose arguments are compiled. */
    method AddOperation(a: Access, args: seq<Typed>) returns (ok: bool)
      modifies this
      ensures ok == StepType(old(current), a, TypesIn(args)).Some?
      ensures ok ==> current == StepType(old(current), a, TypesIn(args)).value
      ensures ok ==> immediate == if current.AtValue? then Some(current.v) else old(immediate)
      ensures ok ==> arguments == old(arguments) + Exprs(args) && ops == old(ops) + StepOps(current, a)
    {
      var next := StepType(current, a, TypesIn(args));
      if next.None? { return false; }
      current := next.value;
      if a.Field? && current.AtValue? {
        immediate := Some(current.v);
      } else {
        ops := ops + [OpOf(a)];
      }
      arguments := arguments + Exprs(args);
      return true;
    }
  }

  lemma ResumeNothing(rest: Option<Path>)
    ensures Resume([], [], rest) == rest
  {
    if rest.Some? { assert [] + rest.value.arguments == rest.value.arguments && [] + rest.value.ops == rest.value.ops; }
  }

  lemma ResumeTwice(arguments: seq<Expr>, ops: seq<Op>, arguments': seq<Expr>, ops': seq<Op>, rest: Option<Path>)
    ensures Resume(arguments, ops, Resume(arguments', ops', rest)) == Resume(arguments + arguments', ops + ops', rest)
  {
    if rest.Some? {
      assert arguments + (arguments' + rest.value.arguments) == arguments + arguments' + rest.value.arguments;
      assert ops + (ops' + rest.value.ops) == ops + ops' + rest.value.ops;
    }
  }

  lemma PathEnd(k: Context, bound: Bound, depth: nat, id: Identifier, current: Current, immediate: Option<StaticValue>,
                arguments: seq<Expr>, ops: seq<Op>)
    ensures Resume(arguments, ops, CompilePath(k, bound, depth, id, |id.path|, current, immediate))
         == Some(Path(current, immediate, arguments, ops))
  {
    assert arguments + [] == arguments && ops + [] == ops;
    assert CompileArguments(k, bound, depth, id, |id.path|) == Some([]);
  }

  /** The first step of a path, then the others. */
  lemma PathStep(k: Context, bound: Bound, depth: nat, id: Identifier, i: nat, current: Current,
                 immediate: Option<StaticValue>)
    requires i < |id.path|
    ensures CompilePath(k, bound, depth, id, i, current, immediate) ==
            var xs := CompileStep(k, bound, depth, id, i);
            if xs.None? then None
            else
              var next := StepType(current, id.path[i], TypesIn(xs.value));
              if next.None? then None
              else Resume(Exprs(xs.value), StepOps(next.value, id.path[i]),
                          CompilePath(k, bound, depth, id, i + 1, next.value,
                                      if next.value.AtValue? then Some(next.value.v) else immediate))
  {
    hide Compile, CompileStep;
    ArgumentsStep(k, bound, depth, id, i);
    assert id.path[i..][0] == id.path[i] && id.path[i..][1..] == id.path[i + 1..];
    ArgumentsAre(k, bound, depth, id, i);
    var xss := CompileArguments(k, bound, depth, id, i);
    if xss.Some? { assert xss.value[1..] == CompileArguments(k, bound, depth, id, i + 1).value; }
  }

  lemma ArgumentsStep(k: Context, bound: Bound, depth: nat, id: Identifier, i: nat)
    requires i < |id.path|
    ensures CompileArguments(k, bound, depth, id, i) ==
            var xs, rest := CompileStep(k, bound, depth, id, i), CompileArguments(k, bound, depth, id, i + 1);
            if xs.None? || rest.None? then None else Some([xs.value] + rest.value)
  {
    hide Compile, CompileStep;
    var steps := seq(|id.path| - i, j requires 0 <= j < |id.path| - i => CompileStep(k, bound, depth, id, i + j));
    var others := seq(|id.path| - (i + 1), j requires 0 <= j < |id.path| - (i + 1) => CompileStep(k, bound, depth, id, i + 1 + j));
    forall j | 0 <= j < |others| ensures steps[1..][j] == others[j] { assert i + (1 + j) == i + 1 + j; }
    assert steps[1..] == others && steps[0] == CompileStep(k, bound, depth, id, i + 0);
  }

  lemma StepCompiled(k: Context, bound: Bound, depth: nat, id: Identifier, i: nat)
    requires i < |id.path|
    ensures CompileStep(k, bound, depth, id, i) == AllSome(Compiled(k, bound, depth, StepArguments(id, i)))
  {
    hide Compile;
    var es := StepArguments(id, i);
    assert seq(|es|, j requires 0 <= j < |es| => Compile(k, bound, depth, es[j])) == Compiled(k, bound, depth, es);
  }

  lemma ListCompiled(k: Context, bound: Bound, depth: nat, es: seq<Source>)
    ensures CompileAll(k, bound, depth, es) == AllSome(Compiled(k, bound, depth, es))
  {
    hide Compile;
    assert seq(|es|, j requires 0 <= j < |es| => Compile(k, bound, depth, es[j])) == Compiled(k, bound, depth, es);
  }

  /** Removing the names of a loop leaves the names that were bound before it. */
  lemma {:induction false} RemovedKeys(bound: Bound, names: seq<string>, tys: seq<ModuleType>)
    requires AddAllBound(bound, names, tys).Some?
    ensures AddAllBound(bound, names, tys).value - NameSet(names) == bound
    decreases |names|
  {
    if names == [] {
      assert NameSet(names) == {} && bound - {} == bound;
    } else {
      var one := AddBound(bound, names[0], tys[0]).value;
      RemovedKeys(one, names[1..], tys[1..]);
      NameSetTail(names);
      OneKeyLess(bound, one, AddAllBound(one, names[1..], tys[1..]).value, names[0], tys[0], NameSet(names[1..]));
    }
  }

  lemma OneKeyLess(bound: Bound, one: Bound, inner: Bound, name: string, ty: ModuleType, rest: set<string>)
    requires AddBound(bound, name, ty) == Some(one) && inner - rest == one
    ensures inner - ({name} + rest) == bound
  {
    assert one - {name} == bound;
    assert inner - ({name} + rest) == (inner - rest) - {name};
  }

  // ----- Effects of the parts of `for` -----

  lemma ForEffects(k: Context, scope: set<string>, e: Source)
    requires IsForVariables(e) && VariablesOf(k.variables, e.patterns).Some?
    ensures var parts, number, own :=
              SumIn(k, scope, TurnParts(e)), SumIn(k, scope, NumberOfSelection(e.selection)),
              Effects([], SetOf(VariablesOf(k.variables, e.patterns).value));
            EffectsOf(k, scope, e) == Join(if e.For? then Join(number, parts) else Join(parts, number), own)
  {
    hide EffectsOf;
    var number, parts := NumberOfSelection(e.selection), TurnParts(e);
    if e.For? {
      InAppend(scope, number, parts);
      EffectsAre(k, scope, e, number + parts);
      SumInAppend(k, scope, number, parts);
    } else {
      InAppend(scope, parts, number);
      EffectsAre(k, scope, e, parts + number);
      SumInAppend(k, scope, parts, number);
    }
  }

  lemma SelectedThenBody(before: Effects, number: Effects, own: Effects, parts: Effects)
    requires own.wildcards == []
    ensures Join(Join(Join(before, number), own), parts) == Join(before, Join(Join(number, parts), own))
  {
    OwnFirst(Join(before, number), own, parts);
    JoinIsMonoid(before, number, Join(parts, own));
    JoinIsMonoid(number, parts, own);
  }

  lemma BodyThenSelected(before: Effects, parts: Effects, number: Effects, own: Effects)
    ensures Join(Join(Join(before, parts), number), own) == Join(before, Join(Join(parts, number), own))
  {
    JoinIsMonoid(before, parts, number);
    JoinIsMonoid(before, Join(parts, number), own);
  }

  lemma ThreeJoined(before: Effects, a: Effects, b: Effects, c: Effects)
    ensures Join(Join(Join(before, a), b), c) == Join(before, Join(Join(a, b), c))
  {
    BodyThenSelected(before, a, b, c);
  }

  /** The compiled conditions of a list. */
  function Compiled(k: Context, bound: Bound, depth: nat, es: seq<Source>): (r: seq<Option<Typed>>)
    ensures |r| == |es| && forall j :: 0 <= j < |r| ==> r[j] == Compile(k, bound, depth, es[j])
  {
    seq(|es|, j requires 0 <= j < |es| => Compile(k, bound, depth, es[j]))
  }

  lemma OperandsCompiled(k: Context, bound: Bound, depth: nat, e: Source)
    ensures CompileOperands(k, bound, depth, e) == AllSome(Compiled(k, bound, depth, Sources.Operands(e)))
  {
    var es := Sources.Operands(e);
    assert seq(|es|, j requires 0 <= j < |es| => Compile(k, bound, depth, es[j])) == Compiled(k, bound, depth, es);
  }

  lemma AllSomeIs<T>(rs: seq<Option<T>>, xs: seq<T>)
    requires |rs| == |xs| && forall j :: 0 <= j < |rs| ==> rs[j] == Some(xs[j])
    ensures AllSome(rs) == Some(xs)
  {
    assert AllSome(rs).value == xs;
  }

  function SumUpTo(es: seq<Effects>, j: nat): Effects
    requires j <= |es|
  {
    if j == 0 then NOTHING else Join(SumUpTo(es, j - 1), es[j - 1])
  }

  /** The first of the sources are compiled, with their effects. */
  predicate Collected(all: seq<Option<Typed>>, effects: seq<Effects>, xs: seq<Typed>, done: Effects) {
    && |xs| <= |all| == |effects| && (forall m :: 0 <= m < |xs| ==> all[m] == Some(xs[m]))
    && done == SumUpTo(effects, |xs|)
  }

  lemma NothingCollected(all: seq<Option<Typed>>, effects: seq<Effects>)
    requires |all| == |effects|
    ensures Collected(all, effects, [], NOTHING)
  {
  }

  lemma CollectedMore(all: seq<Option<Typed>>, effects: seq<Effects>, xs: seq<Typed>, done: Effects)
    requires Collected(all, effects, xs, done) && |xs| < |all| && all[|xs|].Some?
    ensures Collected(all, effects, xs + [all[|xs|].value], Join(done, effects[|xs|]))
  {
    hide Join;
  }

  lemma CollectedAll(all: seq<Option<Typed>>, effects: seq<Effects>, xs: seq<Typed>, done: Effects)
    requires Collected(all, effects, xs, done) && |xs| == |all|
    ensures done == Sum(effects) && forall m :: 0 <= m < |xs| ==> all[m] == Some(xs[m])
  {
    SumUpToAll(effects);
  }

  lemma {:induction false} SumUpToIs(es: seq<Effects>, j: nat)
    requires j <= |es|
    ensures SumUpTo(es, j) == Sum(es[..j])
    decreases j
  {
    if j > 0 {
      SumUpToIs(es, j - 1);
      assert es[..j] == es[..j - 1] + [es[j - 1]];
      SumAppend(es[..j - 1], [es[j - 1]]);
      SumOne(es[j - 1]);
    }
  }

  lemma SumUpToAll(es: seq<Effects>)
    ensures SumUpTo(es, |es|) == Sum(es)
  {
    SumUpToIs(es, |es|);
    assert es[..|es|] == es;
  }

  /** The variables used by a condition may be marked before those of its parts. */
  lemma OwnFirst(before: Effects, own: Effects, parts: Effects)
    requires own.wildcards == []
    ensures Join(Join(before, own), parts) == Join(before, Join(parts, own))
  {
    assert before.wildcards + [] + parts.wildcards == before.wildcards + (parts.wildcards + []);
    assert before.uses + own.uses + parts.uses == before.uses + (parts.uses + own.uses);
  }

  lemma {:induction false} SetAppend(a: seq<Option<nat>>, b: seq<Option<nat>>)
    ensures Indexes(a + b) == Indexes(a) + Indexes(b) && CountGlobal(a + b) == CountGlobal(a) + CountGlobal(b)
    decreases |a|
  {
    if a == [] {
      assert [] + b == b;
    } else {
      assert (a + b)[1..] == a[1..] + b;
      SetAppend(a[1..], b);
      if a[0].Some? {
        assert [a[0].value] + (Indexes(a[1..]) + Indexes(b)) == [a[0].value] + Indexes(a[1..]) + Indexes(b);
      }
    }
  }

  // ----- Marks -----

  function Marked(used: seq<bool>): set<nat> {
    set i: nat | i < |used| && used[i]
  }

  function SetOf(s: seq<nat>): set<nat> {
    set i | i in s
  }

  lemma MarkOne(used: seq<bool>, i: nat)
    requires i < |used|
    ensures Marked(used[i := true]) == Marked(used) + SetOf([i])
  {
  }

  lemma MarkAll(used: seq<bool>)
    ensures Marked(seq(|used|, _ => true)) == Marked(used) + SetOf(Upto(|used|))
  {
    forall i: nat | i < |used| ensures i in SetOf(Upto(|used|)) { assert Upto(|used|)[i] == i; }
  }

  lemma JoinUse(before: Effects, i: nat)
    ensures Join(before, Effects([], {i})) == Effects(before.wildcards, before.uses + SetOf([i]))
  {
    assert SetOf([i]) == {i};
  }

  lemma JoinUses(before: Effects, xs: seq<nat>, ys: seq<nat>)
    ensures Join(Join(before, Effects([], SetOf(xs))), Effects([], SetOf(ys))) == Join(before, Effects([], SetOf(xs + ys)))
  {
    assert SetOf(xs + ys) == SetOf(xs) + SetOf(ys);
  }

  lemma PrefixStep(names: seq<string>, prefix: string, i: nat, found: seq<nat>)
    requires i < |names|
    ensures found + Prefixed(names, prefix, i)
         == (if prefix <= names[i] then found + [i] else found) + Prefixed(names, prefix, i + 1)
  {
    var rest := Prefixed(names, prefix, i + 1);
    if prefix <= names[i] { assert found + ([i] + rest) == found + [i] + rest; } else { assert [] + rest == rest; }
  }

  lemma PrependNothing<T>(rest: Option<seq<T>>)
    ensures Prepend([], rest) == rest
  {
    assert rest.Some? ==> [] + rest.value == rest.value;
  }

  lemma PrependTwice<T>(xs: seq<T>, ys: seq<T>, rest: Option<seq<T>>)
    ensures Prepend(xs, Prepend(ys, rest)) == Prepend(xs + ys, rest)
  {
    if rest.Some? { assert xs + (ys + rest.value) == xs + ys + rest.value; }
  }

  function Prepend<T>(xs: seq<T>, rest: Option<seq<T>>): Option<seq<T>> {
    if rest.None? then None else Some(xs + rest.value)
  }

  lemma {:induction false} FirstIndex(names: seq<string>, name: string, i: nat)
    requires i < |names| && names[i] == name && name !in names[..i]
    ensures IndexOf(names, name) == Some(i)
    decreases i
  {
    if i > 0 {
      assert names[0] in names[..i];
      assert forall n :: n in names[1..][..i - 1] ==> n in names[..i];
      FirstIndex(names[1..], name, i - 1);
    }
  }
}
