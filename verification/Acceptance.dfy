/** Which components are added (`compiler/mod.rs`, `compiler/rule.rs`), and what the rules added mean. */
module Acceptance {
  import opened Base
  import Values
  import opened Types
  import opened Sources
  import opened Expressions
  import opened Compiling
  import RuleCompiling
  import opened Namespaces
  import Typing
  import Patterns
  import Scoping
  import Soundness
  import Laws
  import VarMatches

  // ----- Rules -----

  /** The condition has a type, which may stand for a boolean, and is nested less than the limit. */
  ghost predicate ConditionFits(k: Context, e: Source) {
    RuleCompiling.Depth(k, {}, e) < k.maxDepth && Typing.IsCondition(k, map[], e)
  }

  /** Some part of the condition looks at the variable. */
  ghost predicate IsUsed(k: Context, e: Source, j: nat) {
    exists p :: Patterns.Inside(k, {}, e, p) && Patterns.LooksAt(k, p.e, j)
  }

  /** The rule may be added to the namespace. */
  ghost predicate Acceptable(s: State, ns: Option<string>, r: RuleDecl) {
    var k, space := ContextOf(s, ns, r), SpaceOf(s, ns);
    && (forall w :: w in space.forbidden ==> !(w <= r.name))
    && (forall j :: 0 <= j < |space.rules| ==> space.rules[j].0 != r.name)
    && (forall i, j :: 0 <= i < j < |r.tags| ==> r.tags[i] != r.tags[j])
    && (forall i, j :: 0 <= i < j < |r.variables| && r.variables[i].name == r.variables[j].name ==> r.variables[i].name == "")
    && ConditionFits(k, r.condition)
    && forall j :: 0 <= j < |r.variables| ==>
         r.variables[j].valid && (IsUsed(k, r.condition, j) || "_" <= r.variables[j].name)
  }

  lemma ConditionIff(k: Context, e: Source)
    ensures (Compile(k, map[], 0, e).Some? && BoolOk(k, Compile(k, map[], 0, e).value.ty)) <==> ConditionFits(k, e)
  {
    hide Compile, RuleCompiling.Depth, Typing.Has;
    var x := Compile(k, map[], 0, e);
    var bound: Bound := map[];
    assert bound.Keys == {} && Typing.ScopeOf(bound) == map[];
    if x.Some? { Typing.Accepted(k, bound, 0, e, x.value.ty); }
    if ConditionFits(k, e) {
      var ty :| Typing.Has(k, map[], e, ty) && !Typing.Warned(k, ty);
      Typing.Accepted(k, bound, 0, e, ty);
    }
  }

  lemma UsesFit(k: Context, r: RuleDecl)
    ensures VariablesFine(r, RuleCompiling.EffectsOf(k, {}, r.condition).uses)
       <==> forall j :: 0 <= j < |r.variables| ==>
              r.variables[j].valid && (IsUsed(k, r.condition, j) || "_" <= r.variables[j].name)
  {
    hide RuleCompiling.EffectsOf, Patterns.Inside, Patterns.LooksAt;
    forall j: nat ensures j in RuleCompiling.EffectsOf(k, {}, r.condition).uses <==> IsUsed(k, r.condition, j) {
      Patterns.UsesIff(k, {}, r.condition, j);
    }
  }

  lemma CompiledIff(s: State, ns: Option<string>, r: RuleDecl)
    ensures CompileRule(s, ns, r).Some? <==>
      && Distinct(r.tags) && NamesDiffer(VariableNames(r)) && ConditionFits(ContextOf(s, ns, r), r.condition)
      && VariablesFine(r, RuleCompiling.EffectsOf(ContextOf(s, ns, r), {}, r.condition).uses)
  {
    hide Compile, RuleCompiling.EffectsOf, ConditionFits;
    ConditionIff(ContextOf(s, ns, r), r.condition);
  }

  lemma AllowedIff(space: Namespace, name: string)
    ensures Allowed(space, name) <==> forall w :: w in space.forbidden ==> !(w <= name)
  {
    if forall w :: w in space.forbidden ==> !(w <= name) {
      forall j | 0 <= j < |space.forbidden| ensures !(space.forbidden[j] <= name) {
        assert space.forbidden[j] in space.forbidden;
      }
    }
  }

  /** A rule is added exactly when it may be. */
  lemma AddedIff(s: State, ns: Option<string>, r: RuleDecl)
    ensures Add(s, ns, RuleComponent(r)).1 <==> Acceptable(s, ns, r)
  {
    hide CompileRule, ConditionFits, IsUsed, RuleCompiling.EffectsOf, VariablesFine, ContextOf;
    var space := SpaceOf(s, ns);
    CompiledIff(s, ns, r);
    UsesFit(ContextOf(s, ns, r), r);
    var names := Sources.Names(space.rules);
    AllowedIff(space, r.name);
    assert Distinct(r.tags) <==> forall i, j :: 0 <= i < j < |r.tags| ==> r.tags[i] != r.tags[j];
    assert r.name in names <==> exists j :: 0 <= j < |space.rules| && space.rules[j].0 == r.name;
    assert NamesDiffer(VariableNames(r))
      <==> forall i, j :: 0 <= i < j < |r.variables| && r.variables[i].name == r.variables[j].name ==> r.variables[i].name == "";
  }

  /** The rule that was added last. */
  function AddedRule(s: State, s': State, r: RuleDecl): Option<Rule> {
    if r.isGlobal then if |s'.globals| > |s.globals| then Some(s'.globals[|s.globals|]) else None
    else if |s'.rules| > |s.rules| then Some(s'.rules[|s.rules|]) else None
  }

  /** Whatever the scan and the matches, the rule added evaluates to what its source means, where the names of its variables
      and rules are those of its namespace. */
  lemma AddedMeans(s: State, ns: Option<string>, r: RuleDecl, c: Values.Scan,
                   matches: Option<seq<seq<VarMatches.StringMatch>>>)
    requires Add(s, ns, RuleComponent(r)).1 && Soundness.Serves(c, ContextOf(s, ns, r))
    requires matches.Some? ==> |matches.value| == |r.variables|
    ensures var rule := AddedRule(s, Add(s, ns, RuleComponent(r)).0, r);
            && rule.Some? && rule.value.name == r.name && rule.value.space == ns && rule.value.isGlobal == r.isGlobal
            && rule.value.nbVariables == |r.variables|
            && Eval(c, Env(None, [], matches), rule.value.condition)
            == Meaning(c, ContextOf(s, ns, r), Scope(map[], None, matches), r.condition)
  {
    hide Compile, RuleCompiling.EffectsOf, Soundness.Serves, Eval, Meaning;
    Scoping.RuleMeans(c, ContextOf(s, ns, r), r.condition, matches);
  }

  /** The verdict of a rule: true as its condition is, and false without a value, unless that waits for the matches. */
  lemma VerdictIs(c: Values.Scan, condition: Expr, matches: Option<seq<seq<VarMatches.StringMatch>>>)
    ensures var r := Eval(c, Env(None, [], matches), condition);
            RuleVerdict(c, condition, matches) == if r == Values.Err(Values.VarNeeded) then None else Some(Laws.IsTrue(c, r))
  {
    hide Eval;
  }

  // ----- Modules -----

  /** The modules of a namespace have the values and types of those available. */
  predicate ModulesAre(s: State) {
    forall ns, m :: ns in s.spaces && m in s.spaces[ns].modules ==> IsAvailable(s.available, m, s.spaces[ns].modules[m])
  }

  predicate IsAvailable(available: map<string, AvailableModule>, name: string, m: ImportedModule) {
    name in available && m.statics == available[name].statics && m.dynamic == available[name].dynamic
  }

  lemma AddKeepsModules(s: State, ns: Option<string>, component: Component)
    requires ModulesAre(s)
    ensures ModulesAre(Add(s, ns, component).0)
  {
    hide CompileRule, IsAvailable;
    var s' := Add(s, ns, component).0;
    forall to, m | to in s'.spaces && m in s'.spaces[to].modules
      ensures IsAvailable(s'.available, m, s'.spaces[to].modules[m])
    {
      if m in SpaceOf(s, to).modules && s'.spaces[to].modules[m] == SpaceOf(s, to).modules[m] {
        assert IsAvailable(s.available, m, s.spaces[to].modules[m]);
        SameAvailable(s, ns, component, m, s.spaces[to].modules[m]);
      } else {
        ImportedIs(s, ns, component, to, m);
      }
    }
  }

  lemma SameAvailable(s: State, ns: Option<string>, component: Component, name: string, m: ImportedModule)
    requires IsAvailable(s.available, name, m)
    ensures IsAvailable(Add(s, ns, component).0.available, name, m)
  {
    hide CompileRule;
  }

  lemma ImportedIs(s: State, ns: Option<string>, component: Component, to: Option<string>, m: string)
    requires var s' := Add(s, ns, component).0;
             && to in s'.spaces && m in s'.spaces[to].modules
             && !(m in SpaceOf(s, to).modules && s'.spaces[to].modules[m] == SpaceOf(s, to).modules[m])
    ensures var s' := Add(s, ns, component).0; IsAvailable(s'.available, m, s'.spaces[to].modules[m])
  {
    hide CompileRule;
  }

  /** In every state reached from nothing, modules are as they were made available; and a namespace has the modules that
      were imported into it, and no other. */
  lemma {:induction false} RunModules(s: State, steps: seq<Step>, ns: Option<string>, name: string)
    requires ModulesAre(s)
    ensures ModulesAre(Run(s, steps)) && Run(s, steps).available.Keys == s.available.Keys
    ensures name in SpaceOf(Run(s, steps), ns).modules
       <==> name in SpaceOf(s, ns).modules || (name in s.available && Step(ns, Import(name)) in steps)
    decreases |steps|
  {
    hide Add, ModulesAre;
    if steps != [] {
      var next := Add(s, steps[0].space, steps[0].component).0;
      AddKeepsModules(s, steps[0].space, steps[0].component);
      AddModules(s, steps[0].space, steps[0].component, ns, name);
      RunModules(next, steps[1..], ns, name);
      assert steps == [steps[0]] + steps[1..];
    }
  }

  lemma AddModules(s: State, to: Option<string>, component: Component, ns: Option<string>, name: string)
    ensures var next := Add(s, to, component).0;
            && next.available.Keys == s.available.Keys
            && (name in SpaceOf(next, ns).modules
                <==> name in SpaceOf(s, ns).modules || (name in s.available && to == ns && component == Import(name)))
  {
    hide CompileRule;
  }

  lemma InitialModules(s: State)
    requires Initial(s)
    ensures ModulesAre(s)
  {
  }
}
