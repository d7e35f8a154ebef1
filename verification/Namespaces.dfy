/** The compiler of files (`compiler/mod.rs`): rules, modules and symbols added one component at a time, in namespaces
    that share their indexes. */
module Namespaces {
  import opened Base
  import Values
  import opened Types
  import opened Sources
  import opened Expressions
  import opened Compiling
  import opened RuleCompiling
  import opened References
  import RuleCompilers
  import Scoping
  import Soundness

  // ----- Components -----

  /** A variable of a rule; whether its value makes a matcher is not modelled. */
  datatype VariableDecl = VariableDecl(name: string, valid: bool)

  datatype RuleDecl = RuleDecl(name: string, isGlobal: bool, tags: seq<string>, variables: seq<VariableDecl>,
                               condition: Source)

  datatype Component = Import(name: string) | RuleComponent(rule: RuleDecl)

  // ----- The compiler -----

  datatype Rule = Rule(name: string, space: Option<string>, isGlobal: bool, condition: Expr, nbVariables: nat)

  /** A compiled variable: the one at this position in its rule. */
  datatype RuleVariable = RuleVariable(space: Option<string>, rule: string, position: nat)

  /** `None` until the module is imported for the first time. */
  datatype AvailableModule = AvailableModule(statics: map<string, StaticValue>, dynamic: map<string, ModuleType>,
                                             location: Option<nat>)

  datatype Namespace = Namespace(rules: seq<(string, Option<nat>)>, modules: map<string, ImportedModule>,
                                 forbidden: seq<string>)

  datatype State = State(
    rules: seq<Rule>,
    globals: seq<Rule>,
    variables: seq<RuleVariable>,
    imported: seq<string>,
    available: map<string, AvailableModule>,
    spaces: map<Option<string>, Namespace>,
    externals: seq<(string, Type)>,
    maxDepth: nat,
    failOnWarnings: bool)

  function SpaceOf(s: State, ns: Option<string>): Namespace {
    if ns in s.spaces then s.spaces[ns] else Namespace([], map[], [])
  }

  function WithSpace(s: State, ns: Option<string>, space: Namespace): State {
    s.(spaces := s.spaces[ns := space])
  }

  // ----- Rules -----

  predicate Distinct<T(==)>(xs: seq<T>) {
    forall i, j :: 0 <= i < j < |xs| ==> xs[i] != xs[j]
  }

  function VariableNames(r: RuleDecl): (names: seq<string>)
    ensures |names| == |r.variables| && forall j :: 0 <= j < |names| ==> names[j] == r.variables[j].name
  {
    seq(|r.variables|, j requires 0 <= j < |r.variables| => r.variables[j].name)
  }

  function ContextOf(s: State, ns: Option<string>, r: RuleDecl): Context {
    Context(VariableNames(r), SpaceOf(s, ns).modules, SpaceOf(s, ns).rules, s.externals, s.maxDepth, s.failOnWarnings)
  }

  /** Anonymous variables may be repeated. */
  predicate NamesDiffer(names: seq<string>) {
    forall i, j :: 0 <= i < j < |names| && names[i] != "" ==> names[i] != names[j]
  }

  /** A variable must be used by the condition, unless its name starts with an underscore. */
  predicate VariablesFine(r: RuleDecl, uses: set<nat>) {
    forall j :: 0 <= j < |r.variables| ==> (j in uses || "_" <= r.variables[j].name) && r.variables[j].valid
  }

  datatype CompiledRule = CompiledRule(rule: Rule, wildcards: seq<string>)

  /** `compile_rule` */
  function CompileRule(s: State, ns: Option<string>, r: RuleDecl): Option<CompiledRule> {
    var k := ContextOf(s, ns, r);
    if !Distinct(r.tags) || !NamesDiffer(k.variables) then None
    else
      var x := Compile(k, map[], 0, r.condition);
      if x.None? || !BoolOk(k, x.value.ty) then None
      else
        var effects := EffectsOf(k, {}, r.condition);
        if !VariablesFine(r, effects.uses) then None
        else Some(CompiledRule(Rule(r.name, ns, r.isGlobal, x.value.e, |r.variables|), effects.wildcards))
  }

  function Own(r: Rule): (vs: seq<RuleVariable>)
    ensures |vs| == r.nbVariables
  {
    seq(r.nbVariables, (j: nat) => RuleVariable(r.space, r.name, j))
  }

  predicate Allowed(space: Namespace, name: string) {
    forall j :: 0 <= j < |space.forbidden| ==> !(space.forbidden[j] <= name)
  }

  // ----- Adding a component -----

  /** The state after a component, and whether it was added. */
  function Add(s: State, ns: Option<string>, component: Component): (State, bool) {
    var space := SpaceOf(s, ns);
    var s1 := WithSpace(s, ns, space);
    match component
    case Import(name) =>
      if name !in s.available then (s1, false)
      else
        var m := s.available[name];
        var index := if m.location.Some? then m.location.value else |s.imported|;
        var imported := if m.location.Some? then s.imported else s.imported + [name];
        var space' := space.(modules := space.modules[name := ImportedModule(m.statics, m.dynamic, index)]);
        (WithSpace(s.(imported := imported, available := s.available[name := m.(location := Some(index))]), ns, space'), true)
    case RuleComponent(r) =>
      if !Allowed(space, r.name) then (s1, false)
      else
        var compiled := CompileRule(s, ns, r);
        if compiled.None? || r.name in Names(space.rules) then (s1, false)
        else
          var rule := compiled.value.rule;
          var index := if r.isGlobal then None else Some(|s.rules|);
          var space' := space.(rules := space.rules + [(r.name, index)], forbidden := space.forbidden + compiled.value.wildcards);
          (WithSpace(s.(rules := if r.isGlobal then s.rules else s.rules + [rule],
                        globals := if r.isGlobal then s.globals + [rule] else s.globals,
                        variables := s.variables + Own(rule)), ns, space'), true)
  }

  // ----- Runs -----

  datatype Step = Step(space: Option<string>, component: Component)

  function Run(s: State, steps: seq<Step>): State
    decreases steps
  {
    if steps == [] then s else Run(Add(s, steps[0].space, steps[0].component).0, steps[1..])
  }

  /** Nothing added yet. */
  predicate Initial(s: State) {
    && s.rules == [] && s.globals == [] && s.variables == [] && s.imported == [] && s.spaces == map[]
    && forall m :: m in s.available ==> s.available[m].location.None?
  }

  // ----- What every run keeps -----

  /** Every index on a normal rule points at the rule of that name and namespace; names differ in a namespace. */
  predicate IndexesPoint(s: State) {
    forall ns :: ns in s.spaces ==>
      && Distinct(Names(s.spaces[ns].rules))
      && forall j :: 0 <= j < |s.spaces[ns].rules| ==> EntryPoints(s, ns, s.spaces[ns].rules[j])
  }

  predicate EntryPoints(s: State, ns: Option<string>, entry: (string, Option<nat>)) {
    entry.1.Some? ==>
      && entry.1.value < |s.rules|
      && s.rules[entry.1.value].name == entry.0 && s.rules[entry.1.value].space == ns
  }

  /** Every normal rule has its index in its namespace. */
  predicate RulesIndexed(s: State) {
    forall i :: 0 <= i < |s.rules| ==>
      s.rules[i].space in s.spaces && (s.rules[i].name, Some(i)) in s.spaces[s.rules[i].space].rules
  }

  /** Every import points at the module of its name. */
  predicate ImportsPoint(s: State) {
    SpacesPoint(s.spaces, s.imported) && AvailablePoint(s.available, s.imported)
  }

  predicate SpacesPoint(spaces: map<Option<string>, Namespace>, imported: seq<string>) {
    forall ns :: ns in spaces ==> ModulesPoint(spaces[ns].modules, imported)
  }

  predicate ModulesPoint(modules: map<string, ImportedModule>, imported: seq<string>) {
    forall m :: m in modules ==> modules[m].index < |imported| && imported[modules[m].index] == m
  }

  /** The modules imported are those that have a location, which is theirs. */
  predicate AvailablePoint(available: map<string, AvailableModule>, imported: seq<string>) {
    && (forall m :: m in available && available[m].location.Some? ==>
          available[m].location.value < |imported| && imported[available[m].location.value] == m)
    && (forall i :: 0 <= i < |imported| ==> imported[i] in available && available[imported[i]].location == Some(i))
  }

  /** A rule only refers to the results of normal rules added before it. */
  ghost predicate RefersBack(s: State) {
    && (forall i :: 0 <= i < |s.rules| ==> RefsBelow(s.rules[i].condition, i))
    && (forall i :: 0 <= i < |s.globals| ==> RefsBelow(s.globals[i].condition, |s.rules|))
  }

  // ----- Every reachable state -----

  ghost predicate Good(s: State) {
    IndexesPoint(s) && RulesIndexed(s) && ImportsPoint(s) && RefersBack(s)
  }

  lemma DistinctAppend(names: seq<string>, name: string)
    requires Distinct(names) && name !in names
    ensures Distinct(names + [name])
  {
  }

  lemma TouchKeeps(s: State, ns: Option<string>)
    requires Good(s)
    ensures Good(WithSpace(s, ns, SpaceOf(s, ns)))
  {
    hide RefsBelow;
  }

  /** The indexes only depend on the rules of the namespaces. */
  lemma EntriesDepend(s: State, t: State)
    requires s.rules == t.rules && s.spaces.Keys == t.spaces.Keys && IndexesPoint(t)
    requires forall ns :: ns in s.spaces ==> s.spaces[ns].rules == t.spaces[ns].rules
    ensures IndexesPoint(s) && (RulesIndexed(t) ==> RulesIndexed(s))
  {
    forall ns, j | ns in s.spaces && 0 <= j < |s.spaces[ns].rules| ensures EntryPoints(s, ns, s.spaces[ns].rules[j]) {
      assert EntryPoints(t, ns, t.spaces[ns].rules[j]);
    }
  }

  lemma MoreImported(spaces: map<Option<string>, Namespace>, imported: seq<string>, more: seq<string>)
    requires SpacesPoint(spaces, imported)
    ensures SpacesPoint(spaces, imported + more)
  {
    forall ns | ns in spaces ensures ModulesPoint(spaces[ns].modules, imported + more) {
      assert ModulesPoint(spaces[ns].modules, imported);
    }
  }

  lemma Located(available: map<string, AvailableModule>, imported: seq<string>, name: string)
    requires AvailablePoint(available, imported) && name in available && available[name].location.None?
    ensures AvailablePoint(available[name := available[name].(location := Some(|imported|))], imported + [name])
  {
    assert forall i :: 0 <= i < |imported| ==> imported[i] != name;
  }

  lemma SpaceImports(spaces: map<Option<string>, Namespace>, imported: seq<string>, ns: Option<string>, space: Namespace)
    requires SpacesPoint(spaces, imported) && ModulesPoint(space.modules, imported)
    ensures SpacesPoint(spaces[ns := space], imported)
  {
  }

  lemma ImportKeepsImports(s: State, ns: Option<string>, name: string)
    requires ImportsPoint(s) && name in s.available
    ensures ImportsPoint(Add(s, ns, Import(name)).0)
  {
    var space, m := SpaceOf(s, ns), s.available[name];
    var index := if m.location.Some? then m.location.value else |s.imported|;
    var more := if m.location.Some? then [] else [name];
    var modules := space.modules[name := ImportedModule(m.statics, m.dynamic, index)];
    assert s.imported + [] == s.imported;
    MoreImported(s.spaces, s.imported, more);
    if m.location.Some? {
      assert s.available[name := m.(location := Some(index))] == s.available;
    } else {
      Located(s.available, s.imported, name);
    }
    assert ModulesPoint(space.modules, s.imported);
    assert ModulesPoint(modules, s.imported + more);
    hide ModulesPoint, AvailablePoint;
    SpaceImports(s.spaces, s.imported + more, ns, space.(modules := modules));
    assert s.spaces[ns := space][ns := space.(modules := modules)] == s.spaces[ns := space.(modules := modules)];
  }

  lemma ImportKeeps(s: State, ns: Option<string>, name: string)
    requires Good(s) && name in s.available
    ensures Good(Add(s, ns, Import(name)).0)
  {
    hide RefsBelow, IndexesPoint, RulesIndexed, ImportsPoint;
    var s' := Add(s, ns, Import(name)).0;
    var touched := WithSpace(s, ns, SpaceOf(s, ns));
    TouchKeeps(s, ns);
    EntriesDepend(s', touched);
    ImportKeepsImports(s, ns, name);
  }

  /** The index that a namespace gives to a normal rule is the index of that rule. */
  lemma EntriesKeep(s: State, ns: Option<string>, rule: Rule, index: Option<nat>, rules: seq<Rule>)
    requires IndexesPoint(s) && rule.space == ns && rule.name !in Names(SpaceOf(s, ns).rules)
    requires rules == (if index.Some? then s.rules + [rule] else s.rules) && (index.Some? ==> index.value == |s.rules|)
    ensures var s' := WithSpace(s.(rules := rules), ns, SpaceOf(s, ns).(rules := SpaceOf(s, ns).rules + [(rule.name, index)]));
            IndexesPoint(s')
  {
    var space := SpaceOf(s, ns);
    var s' := WithSpace(s.(rules := rules), ns, space.(rules := space.rules + [(rule.name, index)]));
    assert Names(space.rules + [(rule.name, index)]) == Names(space.rules) + [rule.name];
    DistinctAppend(Names(space.rules), rule.name);
    forall other, j | other in s'.spaces && 0 <= j < |s'.spaces[other].rules|
      ensures EntryPoints(s', other, s'.spaces[other].rules[j])
    {
      if other != ns || j < |space.rules| {
        assert EntryPoints(s, other, SpaceOf(s, other).rules[j]);
      }
    }
  }

  lemma ContextBelow(s: State, ns: Option<string>, r: RuleDecl)
    requires IndexesPoint(s)
    ensures RulesBelow(ContextOf(s, ns, r).rules, |s.rules|)
  {
    forall j | 0 <= j < |SpaceOf(s, ns).rules| && SpaceOf(s, ns).rules[j].1.Some?
      ensures SpaceOf(s, ns).rules[j].1.value < |s.rules|
    {
      assert EntryPoints(s, ns, SpaceOf(s, ns).rules[j]);
    }
  }

  lemma RulesIndexedKeeps(s: State, ns: Option<string>, r: RuleDecl)
    requires RulesIndexed(s) && Add(s, ns, RuleComponent(r)).1
    ensures RulesIndexed(Add(s, ns, RuleComponent(r)).0)
  {
    hide CompileRule;
    var s' := Add(s, ns, RuleComponent(r)).0;
    var entries, entry := SpaceOf(s, ns).rules, (r.name, if r.isGlobal then None else Some(|s.rules|));
    AddedCompiles(s, ns, r);
    AddedRule(s, ns, r);
    assert s'.spaces[ns].rules == entries + [entry] && (entries + [entry])[|entries|] == entry;
    forall i | 0 <= i < |s'.rules|
      ensures s'.rules[i].space in s'.spaces && (s'.rules[i].name, Some(i)) in s'.spaces[s'.rules[i].space].rules
    {
      if i < |s.rules| { assert s'.rules[i] == s.rules[i]; }
    }
  }

  lemma AddedRule(s: State, ns: Option<string>, r: RuleDecl)
    requires CompileRule(s, ns, r).Some?
    ensures var rule := CompileRule(s, ns, r).value.rule;
            rule.name == r.name && rule.space == ns && rule.isGlobal == r.isGlobal
  {
    hide Compile, EffectsOf;
  }

  lemma RefersBackKeeps(s: State, ns: Option<string>, r: RuleDecl)
    requires IndexesPoint(s) && RefersBack(s) && Add(s, ns, RuleComponent(r)).1
    ensures RefersBack(Add(s, ns, RuleComponent(r)).0)
  {
    hide RefsBelow, Compile, EffectsOf;
    var s' := Add(s, ns, RuleComponent(r)).0;
    ContextBelow(s, ns, r);
    CompiledRefs(ContextOf(s, ns, r), map[], 0, r.condition, |s.rules|);
    forall i | 0 <= i < |s'.globals| ensures RefsBelow(s'.globals[i].condition, |s'.rules|) {
      if i < |s.globals| { RefsBelowMore(s.globals[i].condition, |s.rules|, |s'.rules|); }
    }
  }

  lemma RuleKeepsImports(s: State, ns: Option<string>, r: RuleDecl)
    requires ImportsPoint(s) && Add(s, ns, RuleComponent(r)).1
    ensures ImportsPoint(Add(s, ns, RuleComponent(r)).0)
  {
    hide CompileRule;
    var s' := Add(s, ns, RuleComponent(r)).0;
    assert s'.spaces[ns].modules == SpaceOf(s, ns).modules;
  }

  lemma RuleKeeps(s: State, ns: Option<string>, r: RuleDecl)
    requires Good(s) && Add(s, ns, RuleComponent(r)).1
    ensures Good(Add(s, ns, RuleComponent(r)).0)
  {
    hide RefsBelow, Compile, EffectsOf, IndexesPoint, RulesIndexed, ImportsPoint, RefersBack;
    var s', space := Add(s, ns, RuleComponent(r)).0, SpaceOf(s, ns);
    var rule, index := CompileRule(s, ns, r).value.rule, if r.isGlobal then None else Some(|s.rules|);
    RulesIndexedKeeps(s, ns, r);
    RefersBackKeeps(s, ns, r);
    RuleKeepsImports(s, ns, r);
    EntriesKeep(s, ns, rule, index, s'.rules);
    EntriesDepend(s', WithSpace(s.(rules := s'.rules), ns, space.(rules := space.rules + [(rule.name, index)])));
  }

  lemma AddKeeps(s: State, ns: Option<string>, component: Component)
    requires Good(s)
    ensures Good(Add(s, ns, component).0)
  {
    hide RefsBelow, Compile, EffectsOf, Good, CompileRule;
    if !Add(s, ns, component).1 {
      TouchKeeps(s, ns);
    } else {
      match component
      case Import(name) => ImportKeeps(s, ns, name);
      case RuleComponent(r) => RuleKeeps(s, ns, r);
    }
  }

  /** Whatever is added, in whatever order and namespaces. */
  lemma {:induction false} RunKeeps(s: State, steps: seq<Step>)
    requires Good(s)
    ensures Good(Run(s, steps))
    decreases |steps|
  {
    hide Good, Add;
    if steps != [] {
      AddKeeps(s, steps[0].space, steps[0].component);
      RunKeeps(Add(s, steps[0].space, steps[0].component).0, steps[1..]);
    }
  }

  lemma EveryRunIsGood(s: State, steps: seq<Step>)
    requires Initial(s)
    ensures Good(Run(s, steps))
  {
    RunKeeps(s, steps);
  }

  /** In a good state, no two names have the same index. */
  lemma IndexesDiffer(s: State, ns: Option<string>, ns': Option<string>, j: nat, j': nat)
    requires Good(s) && ns in s.spaces && ns' in s.spaces
    requires j < |s.spaces[ns].rules| && j' < |s.spaces[ns'].rules| && s.spaces[ns].rules[j].1.Some?
    requires s.spaces[ns].rules[j].1 == s.spaces[ns'].rules[j'].1
    ensures ns == ns' && j == j'
  {
    assert EntryPoints(s, ns, s.spaces[ns].rules[j]) && EntryPoints(s, ns', s.spaces[ns'].rules[j']);
    assert Names(s.spaces[ns].rules)[j] == Names(s.spaces[ns'].rules)[j'];
  }

  /** A component that is refused leaves rules, variables, indexes, imports and wildcards as they were. */
  lemma RefusedChangesNothing(s: State, ns: Option<string>, component: Component)
    requires !Add(s, ns, component).1
    ensures Add(s, ns, component).0 == s.(spaces := s.spaces[ns := SpaceOf(s, ns)])
    ensures forall other :: SpaceOf(Add(s, ns, component).0, other) == SpaceOf(s, other)
  {
    hide CompileRule;
  }

  // ----- Wildcards on rules -----

  /** The names of a namespace that a wildcard matches. */
  function Matched(s: State, ns: Option<string>, prefix: string): set<string> {
    set name | name in Names(SpaceOf(s, ns).rules) && prefix <= name
  }

  lemma AddKeepsWildcard(s: State, to: Option<string>, component: Component, ns: Option<string>, prefix: string)
    requires prefix in SpaceOf(s, ns).forbidden
    ensures var s' := Add(s, to, component).0;
            prefix in SpaceOf(s', ns).forbidden && Matched(s', ns, prefix) == Matched(s, ns, prefix)
  {
    hide CompileRule;
    var s' := Add(s, to, component).0;
    var space, space' := SpaceOf(s, ns), SpaceOf(s', ns);
    if component.RuleComponent? && Add(s, to, component).1 && to == ns {
      var name := component.rule.name;
      var j :| 0 <= j < |space.forbidden| && space.forbidden[j] == prefix;
      assert space'.forbidden[j] == prefix && !(prefix <= name);
      assert exists index :: space'.rules == space.rules + [(name, index)];
      assert Names(space'.rules) == Names(space.rules) + [name];
    } else {
      assert space'.rules == space.rules && space'.forbidden == space.forbidden;
    }
  }

  /** Once a wildcard is used in a namespace, what it matches there never changes. */
  lemma {:induction false} RunKeepsWildcard(s: State, steps: seq<Step>, ns: Option<string>, prefix: string)
    requires prefix in SpaceOf(s, ns).forbidden
    ensures Matched(Run(s, steps), ns, prefix) == Matched(s, ns, prefix)
    decreases |steps|
  {
    hide Add, Matched;
    if steps != [] {
      AddKeepsWildcard(s, steps[0].space, steps[0].component, ns, prefix);
      RunKeepsWildcard(Add(s, steps[0].space, steps[0].component).0, steps[1..], ns, prefix);
    }
  }

  /** The rules that a wildcard stands for, in the condition of a rule that is added, are those that it matches for ever
      after, but for the rule itself. */
  lemma WildcardIsFinal(s: State, ns: Option<string>, r: RuleDecl, steps: seq<Step>, prefix: string)
    requires Add(s, ns, RuleComponent(r)).1
    requires prefix in EffectsOf(ContextOf(s, ns, r), {}, r.condition).wildcards
    ensures Matched(Run(Add(s, ns, RuleComponent(r)).0, steps), ns, prefix)
         == Matched(s, ns, prefix) + if prefix <= r.name then {r.name} else {}
  {
    hide Compile, EffectsOf;
    var s' := Add(s, ns, RuleComponent(r)).0;
    var space, space' := SpaceOf(s, ns), SpaceOf(s', ns);
    assert prefix in CompileRule(s, ns, r).value.wildcards;
    assert prefix in space'.forbidden;
    RunKeepsWildcard(s', steps, ns, prefix);
    assert Names(space'.rules) == Names(space.rules) + [r.name];
  }

  // ----- What the scanner finds -----

  /** The rules that a run adds, in order. */
  function AddedRules(s: State, steps: seq<Step>): seq<Rule>
    decreases steps
  {
    if steps == [] then []
    else
      var (next, added) := Add(s, steps[0].space, steps[0].component);
      (if added && steps[0].component.RuleComponent? then [CompileRule(s, steps[0].space, steps[0].component.rule).value.rule] else [])
        + AddedRules(next, steps[1..])
  }

  function Globals(rs: seq<Rule>): seq<Rule> {
    if rs == [] then [] else (if rs[0].isGlobal then [rs[0]] else []) + Globals(rs[1..])
  }

  function Normals(rs: seq<Rule>): seq<Rule> {
    if rs == [] then [] else (if rs[0].isGlobal then [] else [rs[0]]) + Normals(rs[1..])
  }

  /** The variables of some rules, one rule after the other. */
  function Layout(rs: seq<Rule>): seq<RuleVariable> {
    if rs == [] then [] else Own(rs[0]) + Layout(rs[1..])
  }

  /** The rules and the variables of the state come from these rules, added in this order. */
  predicate Built(s: State, added: seq<Rule>) {
    && s.globals == Globals(added) && s.rules == Normals(added) && s.variables == Layout(added)
    && OwnersDiffer(added)
    && forall j :: 0 <= j < |added| ==> added[j].name in Names(SpaceOf(s, added[j].space).rules)
  }

  predicate OwnersDiffer(rs: seq<Rule>) {
    forall i, j :: 0 <= i < j < |rs| ==> (rs[i].space, rs[i].name) != (rs[j].space, rs[j].name)
  }

  /** The scanner goes through the global rules, then the others, and gives each the matches of its number of variables,
      taken from the front. Does each rule get those of its own variables? */
  predicate LinesUp(rs: seq<Rule>, variables: seq<RuleVariable>)
    decreases rs
  {
    rs == [] || (rs[0].nbVariables <= |variables| && variables[..rs[0].nbVariables] == Own(rs[0])
                 && LinesUp(rs[1..], variables[rs[0].nbVariables..]))
  }

  /** No global rule with variables comes after a rule with variables that is not global. */
  predicate GlobalsFirst(rs: seq<Rule>) {
    forall i, j :: 0 <= i < j < |rs| ==>
      !(!rs[i].isGlobal && rs[i].nbVariables > 0 && rs[j].isGlobal && rs[j].nbVariables > 0)
  }

  lemma {:induction false} PartitionAppend(rs: seq<Rule>, r: Rule)
    ensures Globals(rs + [r]) == Globals(rs) + if r.isGlobal then [r] else []
    ensures Normals(rs + [r]) == Normals(rs) + if r.isGlobal then [] else [r]
    ensures Layout(rs + [r]) == Layout(rs) + Own(r)
    decreases |rs|
  {
    hide Own;
    if rs == [] {
      assert rs + [r] == [r] && [r][1..] == [];
    } else {
      assert (rs + [r])[0] == rs[0] && (rs + [r])[1..] == rs[1..] + [r];
      PartitionAppend(rs[1..], r);
      assert Own(rs[0]) + (Layout(rs[1..]) + Own(r)) == Own(rs[0]) + Layout(rs[1..]) + Own(r);
    }
  }

  lemma AddBuilds(s: State, ns: Option<string>, r: RuleDecl, added: seq<Rule>)
    requires Built(s, added) && Add(s, ns, RuleComponent(r)).1
    ensures Built(Add(s, ns, RuleComponent(r)).0, added + [CompileRule(s, ns, r).value.rule])
  {
    hide Compile, EffectsOf, Globals, Normals, Layout, Own;
    var s', rule := Add(s, ns, RuleComponent(r)).0, CompileRule(s, ns, r).value.rule;
    PartitionAppend(added, rule);
    assert Names(s'.spaces[ns].rules) == Names(SpaceOf(s, ns).rules) + [r.name];
  }

  lemma OtherKeepsBuilt(s: State, ns: Option<string>, component: Component, added: seq<Rule>)
    requires Built(s, added) && (component.RuleComponent? ==> !Add(s, ns, component).1)
    ensures Built(Add(s, ns, component).0, added)
  {
    hide CompileRule, Globals, Normals, Layout;
  }

  lemma AddedCompiles(s: State, ns: Option<string>, r: RuleDecl)
    requires Add(s, ns, RuleComponent(r)).1
    ensures CompileRule(s, ns, r).Some?
  {
    hide CompileRule;
  }

  lemma {:induction false} RunBuilds(s: State, steps: seq<Step>, added: seq<Rule>)
    requires Built(s, added)
    ensures Built(Run(s, steps), added + AddedRules(s, steps))
    decreases |steps|
  {
    hide Add, Built, CompileRule;
    if steps == [] {
      assert added + [] == added;
    } else {
      var Step(ns, component) := steps[0];
      var (next, done) := Add(s, ns, component);
      if done && component.RuleComponent? {
        AddedCompiles(s, ns, component.rule);
        AddBuilds(s, ns, component.rule, added);
        var rule := CompileRule(s, ns, component.rule).value.rule;
        RunBuilds(next, steps[1..], added + [rule]);
        assert added + [rule] + AddedRules(next, steps[1..]) == added + ([rule] + AddedRules(next, steps[1..]));
      } else {
        OtherKeepsBuilt(s, ns, component, added);
        RunBuilds(next, steps[1..], added);
        assert [] + AddedRules(next, steps[1..]) == AddedRules(next, steps[1..]);
      }
    }
  }

  lemma {:induction false} LayoutAppend(xs: seq<Rule>, ys: seq<Rule>)
    ensures Layout(xs + ys) == Layout(xs) + Layout(ys)
    decreases |xs|
  {
    hide Own;
    if xs == [] {
      assert [] + ys == ys && [] + Layout(ys) == Layout(ys);
    } else {
      assert (xs + ys)[0] == xs[0] && (xs + ys)[1..] == xs[1..] + ys;
      LayoutAppend(xs[1..], ys);
      assert Own(xs[0]) + (Layout(xs[1..]) + Layout(ys)) == Own(xs[0]) + Layout(xs[1..]) + Layout(ys);
    }
  }

  lemma {:induction false} LinesUpIsPrefix(rs: seq<Rule>, variables: seq<RuleVariable>)
    ensures LinesUp(rs, variables) <==> Layout(rs) <= variables
    decreases |rs|
  {
    hide Own;
    if rs != [] {
      var n := rs[0].nbVariables;
      if n <= |variables| {
        LinesUpIsPrefix(rs[1..], variables[n..]);
        assert variables == variables[..n] + variables[n..];
        if Layout(rs) <= variables {
          assert (Own(rs[0]) + Layout(rs[1..]))[..n] == Own(rs[0]);
          assert (Own(rs[0]) + Layout(rs[1..]))[n..] == Layout(rs[1..]);
        }
      }
    }
  }

  /** Either no global rule has variables, or the layout starts with one of theirs. */
  lemma {:induction false} GlobalsStart(rs: seq<Rule>) returns (j: nat)
    ensures j <= |rs| && (j < |rs| ==> rs[j].isGlobal && rs[j].nbVariables > 0)
    ensures j < |rs| ==> Layout(Globals(rs)) != [] && Layout(Globals(rs))[0] == Own(rs[j])[0]
    ensures j == |rs| ==> Layout(Globals(rs)) == [] && forall i :: 0 <= i < |rs| && rs[i].isGlobal ==> rs[i].nbVariables == 0
    decreases |rs|
  {
    if rs == [] { return 0; }
    FirstRule(rs);
    if rs[0].isGlobal && rs[0].nbVariables > 0 {
      assert Layout(Globals(rs))[0] == Own(rs[0])[0];
      return 0;
    }
    j := GlobalsStart(rs[1..]);
    if rs[0].isGlobal { assert Own(rs[0]) == [] && [] + Layout(Globals(rs[1..])) == Layout(Globals(rs[1..])); }
    j := j + 1;
  }

  lemma Cancel<T>(o: seq<T>, a: seq<T>, b: seq<T>, c: seq<T>)
    ensures o + a + b == o + c <==> a + b == c
    ensures a == [] ==> (a + (o + b) == o + c <==> a + b == c)
    ensures o == [] ==> (a + (o + b) == o + c <==> a + b == c)
    ensures a != [] && o != [] && a[0] != o[0] ==> a + (o + b) != o + c
  {
    assert (o + a + b)[|o|..] == a + b && (o + c)[|o|..] == c;
    assert o + a + b == o + (a + b);
    if a == [] { assert a + (o + b) == o + b && a + b == b && (o + b)[|o|..] == b; }
    if o == [] { assert a + (o + b) == a + b && o + c == c; }
    if a != [] && o != [] { assert (a + (o + b))[0] == a[0] && (o + c)[0] == o[0]; }
  }

  lemma FirstMatters(rs: seq<Rule>, j: nat)
    requires rs != [] && j <= |rs| - 1 && (j < |rs| - 1 ==> rs[j + 1].isGlobal && rs[j + 1].nbVariables > 0)
    requires j == |rs| - 1 ==> forall i :: 0 < i < |rs| && rs[i].isGlobal ==> rs[i].nbVariables == 0
    ensures GlobalsFirst(rs) <==>
              GlobalsFirst(rs[1..]) && (rs[0].isGlobal || rs[0].nbVariables == 0 || j == |rs| - 1)
  {
    var t := rs[1..];
    assert forall i :: 0 < i < |rs| ==> rs[i] == t[i - 1];
    if GlobalsFirst(rs) {
      forall i, m | 0 <= i < m < |t|
        ensures !(!t[i].isGlobal && t[i].nbVariables > 0 && t[m].isGlobal && t[m].nbVariables > 0)
      {
        assert t[i] == rs[i + 1] && t[m] == rs[m + 1];
      }
    }
  }

  /** Reading the variables of the global rules first is reading them in order, exactly when those rules come first. */
  lemma {:induction false} LayoutsAgreeIff(rs: seq<Rule>)
    requires OwnersDiffer(rs)
    ensures Layout(Globals(rs)) + Layout(Normals(rs)) == Layout(rs) <==> GlobalsFirst(rs)
    decreases |rs|
  {
    hide GlobalsFirst, Layout, Globals, Normals;
    if rs == [] {
      EmptyLayouts();
    } else {
      var t := rs[1..];
      assert OwnersDiffer(t) by { assert forall i :: 0 <= i < |t| ==> t[i] == rs[i + 1]; }
      LayoutsAgreeIff(t);
      FirstRule(rs);
      Cancel(Own(rs[0]), Layout(Globals(t)), Layout(Normals(t)), Layout(t));
      var j := GlobalsStart(t);
      FirstMatters(rs, j) by { assert forall i :: 0 < i < |rs| ==> rs[i] == t[i - 1]; }
      if j < |t| { assert (rs[0].space, rs[0].name) != (rs[1 + j].space, rs[1 + j].name); }
    }
  }

  lemma EmptyLayouts()
    ensures Layout(Globals([])) + Layout(Normals([])) == Layout([]) && GlobalsFirst([])
  {
  }

  /** The two layouts of some rules, from those of the rules but the first. */
  lemma FirstRule(rs: seq<Rule>)
    requires rs != []
    ensures Layout(rs) == Own(rs[0]) + Layout(rs[1..])
    ensures rs[0].isGlobal ==> Layout(Globals(rs)) == Own(rs[0]) + Layout(Globals(rs[1..])) && Normals(rs) == Normals(rs[1..])
    ensures !rs[0].isGlobal ==> Globals(rs) == Globals(rs[1..]) && Layout(Normals(rs)) == Own(rs[0]) + Layout(Normals(rs[1..]))
  {
    hide Own;
    if rs[0].isGlobal {
      assert Globals(rs)[1..] == Globals(rs[1..]) && [] + Normals(rs[1..]) == Normals(rs[1..]);
    } else {
      assert Normals(rs)[1..] == Normals(rs[1..]) && [] + Globals(rs[1..]) == Globals(rs[1..]);
    }
  }

  /** The matches of variables reach the rules that declare them exactly when no global rule with variables was added after
      a rule with variables that is not global: variables are kept in the order of addition, and read global rules first. */
  lemma VariablesLineUpIff(s: State, steps: seq<Step>)
    requires Initial(s)
    ensures var s' := Run(s, steps);
            LinesUp(s'.globals + s'.rules, s'.variables) <==> GlobalsFirst(AddedRules(s, steps))
  {
    hide Add, CompileRule, Own, Layout, Globals, Normals, GlobalsFirst, LinesUp;
    var s', added := Run(s, steps), AddedRules(s, steps);
    EmptyBuilt(s);
    RunBuilds(s, steps, []);
    assert [] + added == added;
    LinesUpIsPrefix(s'.globals + s'.rules, s'.variables);
    LayoutAppend(s'.globals, s'.rules);
    LayoutsAgreeIff(added);
    LayoutSize(added);
  }

  lemma EmptyBuilt(s: State)
    requires Initial(s)
    ensures Built(s, [])
  {
  }

  lemma {:induction false} LayoutSize(rs: seq<Rule>)
    ensures |Layout(Globals(rs))| + |Layout(Normals(rs))| == |Layout(rs)|
    decreases |rs|
  {
    if rs != [] {
      LayoutSize(rs[1..]);
      FirstRule(rs);
    }
  }

  // ----- Global rules that refer to other rules -----

  /** Global rules are evaluated before any other rule has a result: one is safe when it refers to no result. That is
      exactly when none of its names and of its sets of rules stands for a rule with an index. */
  lemma GlobalRefersIff(s: State, ns: Option<string>, r: RuleDecl)
    requires r.isGlobal && Add(s, ns, RuleComponent(r)).1
    ensures RefsBelow(Add(s, ns, RuleComponent(r)).0.globals[|s.globals|].condition, 0)
       <==> ReadsBelow(ContextOf(s, ns, r), {}, r.condition, 0)
  {
    hide Compile, EffectsOf, RefsBelow, ReadsBelow;
    var k := ContextOf(s, ns, r);
    var none: Bound := map[];
    CompiledRefsIff(k, none, 0, r.condition, 0);
    assert none.Keys == {};
  }

  ghost predicate GlobalsSafe(s: State) {
    forall i :: 0 <= i < |s.globals| ==> RefsBelow(s.globals[i].condition, 0)
  }

  /** Whenever a global rule is added, its source reads no rule. */
  predicate GlobalsReadNothing(s: State, steps: seq<Step>)
    decreases steps
  {
    steps == [] ||
    (var (next, ok) := Add(s, steps[0].space, steps[0].component);
     && (ok && steps[0].component.RuleComponent? && steps[0].component.rule.isGlobal ==>
           ReadsBelow(ContextOf(s, steps[0].space, steps[0].component.rule), {}, steps[0].component.rule.condition, 0))
     && GlobalsReadNothing(next, steps[1..]))
  }

  lemma AddGlobals(s: State, ns: Option<string>, component: Component)
    ensures var (next, ok) := Add(s, ns, component);
            if ok && component.RuleComponent? && component.rule.isGlobal then
              GlobalsSafe(next) <==> GlobalsSafe(s) && ReadsBelow(ContextOf(s, ns, component.rule), {}, component.rule.condition, 0)
            else next.globals == s.globals
  {
    hide CompileRule, Run;
    var (next, ok) := Add(s, ns, component);
    if ok && component.RuleComponent? && component.rule.isGlobal {
      GlobalRefersIff(s, ns, component.rule);
      hide Compile, EffectsOf, RefsBelow, ReadsBelow;
      assert next.globals[..|s.globals|] == s.globals && |next.globals| == |s.globals| + 1;
      if GlobalsSafe(next) {
        forall i | 0 <= i < |s.globals| ensures RefsBelow(s.globals[i].condition, 0) {
          assert next.globals[i] == s.globals[i];
        }
      }
    }
  }

  /** Over a whole run, no global rule refers to a result exactly when none of their sources reads a rule. */
  lemma {:induction false} GlobalsSafeIff(s: State, steps: seq<Step>)
    ensures GlobalsSafe(Run(s, steps)) <==> GlobalsSafe(s) && GlobalsReadNothing(s, steps)
    decreases |steps|
  {
    hide Add, RefsBelow, ReadsBelow;
    if steps != [] {
      AddGlobals(s, steps[0].space, steps[0].component);
      GlobalsSafeIff(Add(s, steps[0].space, steps[0].component).0, steps[1..]);
    }
  }

  const TRUE_RULE := RuleDecl("a", false, [], [], Source.Const(Values.Boolean(true)))
  const READER := RuleDecl("b", true, [], [], Named(Identifier("a", [])))

  lemma TrueCompiles(k: Context)
    requires k.maxDepth > 1
    ensures Compile(k, map[], 0, TRUE_RULE.condition) == Some(Typed(Expr.Const(Values.Boolean(true)), BooleanType))
    ensures EffectsOf(k, {}, TRUE_RULE.condition) == NOTHING
  {
    var e := TRUE_RULE.condition;
    hide BuildPlain;
    assert BuildPlain(k, e, []) == Some(Typed(Expr.Const(Values.Boolean(true)), BooleanType)) by { BuildConst(k, e); }
    assert CompileOperands(k, map[], 1, e) == Some([]);
    assert EffectsOfParts(k, {}, e) == [];
    JoinIsMonoid(NOTHING, NOTHING, NOTHING);
  }

  lemma BuildConst(k: Context, e: Source)
    requires e.Const?
    ensures BuildPlain(k, e, []) == Some(Typed(Expr.Const(e.v), TypeOf(e.v)))
  {
  }

  lemma ReaderCompiles(k: Context, i: nat)
    requires k.maxDepth > 1 && "a" !in k.modules && Find(k.rules, "a") == Some(Some(i))
    ensures Compile(k, map[], 0, READER.condition) == Some(Typed(RuleResult(i), BooleanType))
    ensures EffectsOf(k, {}, READER.condition) == NOTHING
  {
    var e := READER.condition;
    assert CompileName(k, map[], 1, e.id) == Some(Typed(RuleResult(i), BooleanType));
    assert EffectsOfParts(k, {}, e) == [];
    JoinIsMonoid(NOTHING, NOTHING, NOTHING);
  }

  /** A rule without tags, and with at most one variable that need not be used, is added when its condition compiles. */
  lemma PlainRuleAdded(s: State, ns: Option<string>, r: RuleDecl, x: Expr)
    requires r.tags == [] && |r.variables| <= 1 && VariablesFine(r, {})
    requires Allowed(SpaceOf(s, ns), r.name) && r.name !in Names(SpaceOf(s, ns).rules)
    requires Compile(ContextOf(s, ns, r), map[], 0, r.condition) == Some(Typed(x, BooleanType))
    requires EffectsOf(ContextOf(s, ns, r), {}, r.condition) == NOTHING
    ensures CompileRule(s, ns, r) == Some(CompiledRule(Rule(r.name, ns, r.isGlobal, x, |r.variables|), []))
    ensures Add(s, ns, RuleComponent(r)).1
  {
    hide Compile, EffectsOf;
  }

  /** The run `rule a { condition: true } global rule b { condition: a }`: both rules are added, and the second one reads
      a result that is not there when it is evaluated. */
  lemma GlobalRefersForward(s: State, c: Values.Scan, env: Env)
    requires Initial(s) && s.maxDepth > 1
    ensures var s' := Run(s, [Step(None, RuleComponent(TRUE_RULE)), Step(None, RuleComponent(READER))]);
            && |s'.globals| == 1 && s'.globals[0].name == "b" && !GlobalsSafe(s')
            && Eval(c.(rules := []), env, s'.globals[0].condition) == Values.Err(Values.Stuck)
  {
    hide Compile, EffectsOf, CompileRule;
    var steps := [Step(None, RuleComponent(TRUE_RULE)), Step(None, RuleComponent(READER))];
    TrueCompiles(ContextOf(s, None, TRUE_RULE));
    PlainRuleAdded(s, None, TRUE_RULE, Expr.Const(Values.Boolean(true)));
    var s1 := Add(s, None, RuleComponent(TRUE_RULE)).0;
    assert SpaceOf(s1, None).rules == [("a", Some(0))] && SpaceOf(s1, None).modules == map[];
    ReaderCompiles(ContextOf(s1, None, READER), 0);
    PlainRuleAdded(s1, None, READER, RuleResult(0));
    var s2 := Add(s1, None, RuleComponent(READER)).0;
    assert s2.globals == [Rule("b", None, true, RuleResult(0), 0)];
    assert steps[1..] == [steps[1]] && steps[1..][1..] == [];
    assert Run(s, steps) == Run(s1, steps[1..]) == Run(s2, []) == s2;
    ReaderFails(c, env);
  }

  lemma ReaderFails(c: Values.Scan, env: Env)
    ensures Eval(c.(rules := []), env, RuleResult(0)) == Values.Err(Values.Stuck) && !RefsBelow(RuleResult(0), 0)
  {
  }

  // ----- A run whose variables do not line up -----

  const WITH_VARIABLE := TRUE_RULE.(variables := [VariableDecl("_x", true)])
  const GLOBAL_WITH_VARIABLE := WITH_VARIABLE.(name := "b", isGlobal := true)

  lemma Swapped(a: Rule, b: Rule)
    requires a.nbVariables == b.nbVariables == 1 && a.name != b.name
    ensures !LinesUp([b] + [a], Own(a) + Own(b))
  {
    var variables := Own(a) + Own(b);
    assert variables[..1] == Own(a) && ([b] + [a])[0] == b;
    assert Own(a)[0].rule == a.name && Own(b)[0].rule == b.name;
  }

  /** `rule a { strings: $_x condition: true } global rule b { strings: $_x condition: true }`: the matches of the variable
      of `a` are given to `b`. */
  lemma OutOfOrderWitness(s: State)
    requires Initial(s) && s.maxDepth > 1
    ensures var s' := Run(s, [Step(None, RuleComponent(WITH_VARIABLE)), Step(None, RuleComponent(GLOBAL_WITH_VARIABLE))]);
            |s'.rules| == |s'.globals| == 1 && !LinesUp(s'.globals + s'.rules, s'.variables)
  {
    var steps := [Step(None, RuleComponent(WITH_VARIABLE)), Step(None, RuleComponent(GLOBAL_WITH_VARIABLE))];
    var x := Expr.Const(Values.Boolean(true));
    var a, b := Rule("a", None, false, x, 1), Rule("b", None, true, x, 1);
    TrueIsAdded(s, WITH_VARIABLE);
    var s1 := Add(s, None, steps[0].component).0;
    TrueIsAdded(s1, GLOBAL_WITH_VARIABLE);
    var s2 := Add(s1, None, steps[1].component).0;
    hide Add, LinesUp, Own;
    assert s2.globals == [] + [b] == [b] && s2.rules == [] + [a] == [a] && s2.variables == [] + Own(a) + Own(b);
    assert [] + Own(a) == Own(a);
    RunTwo(s, steps[0], steps[1]);
    Swapped(a, b);
  }

  lemma RunTwo(s: State, first: Step, second: Step)
    ensures Run(s, [first, second]) == Add(Add(s, first.space, first.component).0, second.space, second.component).0
  {
    hide Add;
    var steps := [first, second];
    assert steps[1..] == [second] && steps[1..][1..] == [];
    assert Run(Add(s, first.space, first.component).0, [second])
        == Run(Add(Add(s, first.space, first.component).0, second.space, second.component).0, []);
  }

  /** A rule on `true` that no wildcard forbids and whose name is free is added to the default namespace. */
  lemma TrueIsAdded(s: State, r: RuleDecl)
    requires s.maxDepth > 1 && r.condition == TRUE_RULE.condition && r.tags == [] && |r.variables| <= 1 && VariablesFine(r, {})
    requires SpaceOf(s, None).forbidden == [] && r.name !in Names(SpaceOf(s, None).rules)
    ensures var (s', ok) := Add(s, None, RuleComponent(r));
            var rule := Rule(r.name, None, r.isGlobal, Expr.Const(Values.Boolean(true)), |r.variables|);
            && ok && s'.maxDepth == s.maxDepth
            && s'.rules == s.rules + (if r.isGlobal then [] else [rule])
            && s'.globals == s.globals + (if r.isGlobal then [rule] else [])
            && s'.variables == s.variables + Own(rule)
            && SpaceOf(s', None).forbidden == [] && Names(SpaceOf(s', None).rules) == Names(SpaceOf(s, None).rules) + [r.name]
  {
    TrueCompiles(ContextOf(s, None, r));
    PlainRuleAdded(s, None, r, Expr.Const(Values.Boolean(true)));
    hide Compile, EffectsOf, CompileRule, Own, ContextOf;
    assert s.rules + [] == s.rules && s.globals + [] == s.globals;
    assert SpaceOf(s, None).forbidden + [] == [];
  }

  // ----- The compiler, in place -----

  class Compiler {
    var rules: seq<Rule>
    var globalRules: seq<Rule>
    var variables: seq<RuleVariable>
    var importedModules: seq<string>
    var availableModules: map<string, AvailableModule>
    var namespaces: map<Option<string>, Namespace>
    var externalSymbols: seq<(string, Type)>
    const maxDepth: nat
    const failOnWarnings: bool

    constructor (maxDepth: nat, failOnWarnings: bool)
      ensures Initial(Now())
    {
      rules, globalRules, variables, importedModules := [], [], [], [];
      availableModules, namespaces, externalSymbols := map[], map[], [];
      this.maxDepth := maxDepth;
      this.failOnWarnings := failOnWarnings;
    }

    function Now(): State
      reads this
    {
      State(rules, globalRules, variables, importedModules, availableModules, namespaces, externalSymbols, maxDepth,
            failOnWarnings)
    }

    method AddModule(name: string, statics: map<string, StaticValue>, dynamic: map<string, ModuleType>) returns (ok: bool)
      modifies this`availableModules
      ensures ok == (name !in old(availableModules))
      ensures availableModules ==
              if ok then old(availableModules)[name := AvailableModule(statics, dynamic, None)] else old(availableModules)
    {
      ok := name !in availableModules;
      if ok { availableModules := availableModules[name := AvailableModule(statics, dynamic, None)]; }
    }

    method DefineSymbol(name: string, ty: Type) returns (ok: bool)
      modifies this`externalSymbols
      ensures ok == (name !in Names(old(externalSymbols)))
      ensures externalSymbols == if ok then old(externalSymbols) + [(name, ty)] else old(externalSymbols)
      ensures Distinct(Names(old(externalSymbols))) ==> Distinct(Names(externalSymbols))
    {
      for j := 0 to |externalSymbols|
        invariant externalSymbols == old(externalSymbols)
        invariant name !in Names(externalSymbols)[..j]
      {
        assert Names(externalSymbols)[j] == externalSymbols[j].0;
        if externalSymbols[j].0 == name { return false; }
      }
      assert Names(externalSymbols)[..|externalSymbols|] == Names(externalSymbols);
      assert Names(externalSymbols + [(name, ty)]) == Names(externalSymbols) + [name];
      externalSymbols := externalSymbols + [(name, ty)];
      return true;
    }

    method AddComponent(ns: Option<string>, component: Component) returns (ok: bool)
      modifies this
      ensures (Now(), ok) == Add(old(Now()), ns, component)
    {
      match component {
        case Import(name) => ok := AddImport(ns, name);
        case RuleComponent(r) => ok := AddRule(ns, r);
      }
    }

    method AddImport(ns: Option<string>, name: string) returns (ok: bool)
      modifies this
      ensures (Now(), ok) == Add(old(Now()), ns, Import(name))
    {
      var space := SpaceOf(Now(), ns);
      namespaces := namespaces[ns := space];
      if name !in availableModules { return false; }
      var m := availableModules[name];
      var index: nat;
      match m.location {
        case Some(i) => index := i;
        case None =>
          index := |importedModules|;
          importedModules := importedModules + [name];
      }
      availableModules := availableModules[name := m.(location := Some(index))];
      var space' := space.(modules := space.modules[name := ImportedModule(m.statics, m.dynamic, index)]);
      UpdateTwice(old(namespaces), ns, space, space');
      namespaces := namespaces[ns := space'];
      return true;
    }

    method AddRule(ns: Option<string>, r: RuleDecl) returns (ok: bool)
      modifies this
      ensures (Now(), ok) == Add(old(Now()), ns, RuleComponent(r))
    {
      hide CompileRule;
      var s := Now();
      var space := SpaceOf(s, ns);
      namespaces := namespaces[ns := space];
      ok := CheckAllowed(space, r.name);
      if !ok { return; }
      var compiled := CompileRuleIn(s, ns, r);
      if compiled.None? || r.name in Names(space.rules) { return false; }
      var rule, index := compiled.value.rule, if r.isGlobal then None else Some(|rules|);
      var space' := space.(rules := space.rules + [(r.name, index)], forbidden := space.forbidden + compiled.value.wildcards);
      UpdateTwice(s.spaces, ns, space, space');
      namespaces := namespaces[ns := space'];
      if r.isGlobal { globalRules := globalRules + [rule]; } else { rules := rules + [rule]; }
      variables := variables + Own(rule);
    }
  }

  lemma UpdateTwice<T, U>(m: map<T, U>, key: T, u: U, v: U)
    ensures m[key := u][key := v] == m[key := v]
  {
  }

  method CheckAllowed(space: Namespace, name: string) returns (ok: bool)
    ensures ok == Allowed(space, name)
  {
    for j := 0 to |space.forbidden|
      invariant forall i :: 0 <= i < j ==> !(space.forbidden[i] <= name)
    {
      if space.forbidden[j] <= name { return false; }
    }
    return true;
  }

  /** `compile_rule`: the condition first, which marks the variables it uses. */
  method CompileRuleIn(s: State, ns: Option<string>, r: RuleDecl) returns (result: Option<CompiledRule>)
    ensures result == CompileRule(s, ns, r)
  {
    hide Compile, EffectsOf;
    var k := ContextOf(s, ns, r);
    if !Distinct(r.tags) || !NamesDiffer(k.variables) { return None; }
    var compiler := new RuleCompilers.RuleCompiler(k);
    assert compiler.boundIdentifiers.Keys == {};
    var x := compiler.CompileExpression(r.condition);
    if x.None? { return None; }
    var ok := compiler.ToBoolExpr(x.value.ty);
    if !ok { return None; }
    ghost var effects := EffectsOf(k, {}, r.condition);
    JoinIsMonoid(effects, NOTHING, NOTHING);
    assert compiler.Trace() == effects;
    for j := 0 to |r.variables|
      invariant forall i :: 0 <= i < j ==> (i in effects.uses || "_" <= r.variables[i].name) && r.variables[i].valid
    {
      assert compiler.used[j] <==> j in effects.uses;
      if !compiler.used[j] && !("_" <= r.variables[j].name) { return None; }
      if !r.variables[j].valid { return None; }
    }
    return Some(CompiledRule(Rule(r.name, ns, r.isGlobal, x.value.e, |r.variables|), compiler.ruleWildcardUses));
  }
}
