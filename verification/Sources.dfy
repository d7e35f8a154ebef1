/** Conditions as they are written (`boreal-parser/src/expression`), in the scope of a rule, and what they mean: names
    stand for values. */
module Sources {
  import opened Base
  import opened Values
  import opened Types
  import opened Expressions
  import S = Selection

  datatype Source =
    | Const(v: Value)
    | Filesize
    | Entrypoint
    | ReadInteger(ty: nat, addr: Source)
    | Count(name: string)
    | CountInRange(name: string, from: Source, to: Source)
    | Offset(name: string, occurence: Source)
    | Length(name: string, occurence: Source)
    | Negate(e: Source)
    | Arithmetic(arithOp: ArithOp, l: Source, r: Source)
    | IntArithmetic(intOp: IntOp, l: Source, r: Source)
    | BitwiseNot(e: Source)
    | Conj(es: seq<Source>)
    | Disj(es: seq<Source>)
    | Negation(e: Source)
    | Compare(l: Source, r: Source, lessThan: bool, canBeEqual: bool)
    | Equals(l: Source, r: Source, negated: bool)
    | StringOperation(stringOp: StringOp, l: Source, r: Source, caseInsensitive: bool)
    | MatchesRe(e: Source, regex: nat)
    | IsDefined(e: Source)
    | Variable(name: string)
    | VariableAt(name: string, offset: Source)
    | VariableIn(name: string, from: Source, to: Source)
    | For(selection: SourceSelection, patterns: seq<Pattern>, each: Option<Source>)
    | ForIn(selection: SourceSelection, patterns: seq<Pattern>, from: Source, to: Source)
    | ForAt(selection: SourceSelection, patterns: seq<Pattern>, offset: Source)
    | ForIdentifiers(selection: SourceSelection, names: seq<string>, iter: SourceIterator, body: Source)
    | ForRules(selection: SourceSelection, patterns: seq<Pattern>)
    | Named(id: Identifier)

  datatype SourceSelection = AnyOf | AllOf | NoneOf | NumberOf(number: Source, asPercent: bool)

  datatype SourceIterator = Iterable(id: Identifier) | Between(from: Source, to: Source) | Listed(items: seq<Source>)

  /** An element of a set of variables or rules: a name, or the prefix of a wildcard. */
  datatype Pattern = Pattern(name: string, isWildcard: bool)

  /** `name` followed by a path of subfields, subscripts and calls. */
  datatype Identifier = Identifier(name: string, path: seq<Access>)

  datatype Access = Field(field: string) | Index(e: Source) | Apply(arguments: seq<Source>)

  // ----- The scope of a rule -----

  /** The static values of a module, the types of its dynamic ones, and its index among the imported modules. */
  datatype ImportedModule = ImportedModule(statics: map<string, StaticValue>, dynamic: map<string, ModuleType>, index: nat)

  /** The variables of the rule, what its namespace knows, the external symbols, and the parameters of the compiler.
      The rules come in the order in which the map of rule names is iterated; a global rule has no index. */
  datatype Context = Context(
    variables: seq<string>,
    modules: map<string, ImportedModule>,
    rules: seq<(string, Option<nat>)>,
    externals: seq<(string, Type)>,
    maxDepth: nat,
    failOnWarnings: bool)

  function Find<T>(entries: seq<(string, T)>, name: string): Option<T> {
    if entries == [] then None else if entries[0].0 == name then Some(entries[0].1) else Find(entries[1..], name)
  }

  /** The index of the first element named so. */
  function IndexOf(names: seq<string>, name: string): (r: Option<nat>)
    ensures r.Some? ==> r.value < |names| && names[r.value] == name && name !in names[..r.value]
    ensures r.None? ==> name !in names
  {
    if names == [] then None
    else if names[0] == name then Some(0)
    else
      var rest := IndexOf(names[1..], name);
      if rest.Some? then
        assert names[..rest.value + 1] == [names[0]] + names[1..][..rest.value];
        Some(rest.value + 1)
      else None
  }

  function Names<T>(entries: seq<(string, T)>): (r: seq<string>)
    ensures |r| == |entries| && forall k :: 0 <= k < |r| ==> r[k] == entries[k].0
  {
    seq(|entries|, k requires 0 <= k < |entries| => entries[k].0)
  }

  /** The index of a variable; the empty name stands for the variable selected by the enclosing `for`. */
  function VariableNamed(k: Context, name: string): Option<VariableIndex> {
    if name == "" then Some(None)
    else
      var i := IndexOf(k.variables, name);
      if i.Some? then Some(i) else None
  }

  /** The variables of a set, in the order of its patterns. A pattern must select something. */
  function VariablesOf(variables: seq<string>, patterns: seq<Pattern>): Option<seq<nat>> {
    if patterns == [] then if variables == [] then None else Some(Upto(|variables|)) else VariablesOfSome(variables, patterns)
  }

  function Upto(n: nat): (r: seq<nat>)
    ensures |r| == n && forall k :: 0 <= k < n ==> r[k] == k
  {
    seq(n, k => k)
  }

  function VariablesOfSome(variables: seq<string>, patterns: seq<Pattern>): Option<seq<nat>> {
    if patterns == [] then Some([])
    else
      var first := Selected(variables, patterns[0]);
      var rest := VariablesOfSome(variables, patterns[1..]);
      if first == [] || rest.None? then None else Some(first + rest.value)
  }

  /** The variables that a pattern selects. */
  function Selected(variables: seq<string>, p: Pattern): seq<nat> {
    if p.isWildcard then Prefixed(variables, p.name, 0)
    else
      var i := IndexOf(variables, p.name);
      if i.Some? then [i.value] else []
  }

  /** The indexes, from `from` on, of the names with the prefix. */
  function Prefixed(names: seq<string>, prefix: string, from: nat): (r: seq<nat>)
    ensures forall k :: 0 <= k < |r| ==> from <= r[k] < |names| && prefix <= names[r[k]]
    decreases |names| - from
  {
    if from >= |names| then []
    else (if prefix <= names[from] then [from] else []) + Prefixed(names, prefix, from + 1)
  }

  /** The rules of a set, in the order of its patterns. */
  function RulesOf(rules: seq<(string, Option<nat>)>, patterns: seq<Pattern>): Option<seq<Option<nat>>> {
    if patterns == [] then Some([])
    else
      var first := SelectedRules(rules, patterns[0]);
      var rest := RulesOf(rules, patterns[1..]);
      if first == [] || rest.None? then None else Some(first + rest.value)
  }

  function SelectedRules(rules: seq<(string, Option<nat>)>, p: Pattern): seq<Option<nat>> {
    if p.isWildcard then PrefixedRules(rules, p.name)
    else
      var i := Find(rules, p.name);
      if i.Some? then [i.value] else []
  }

  function PrefixedRules(rules: seq<(string, Option<nat>)>, prefix: string): seq<Option<nat>> {
    if rules == [] then []
    else (if prefix <= rules[0].0 then [rules[0].1] else []) + PrefixedRules(rules[1..], prefix)
  }

  // ----- Operators -----

  /** The operators whose operands are all evaluated in the same scope. */
  predicate IsOperator(e: Source) {
    !IsForVariables(e) && !e.ForIdentifiers? && !e.ForRules? && !e.Named?
  }

  predicate IsForVariables(e: Source) {
    e.For? || e.ForIn? || e.ForAt?
  }

  function Operands(e: Source): (es: seq<Source>)
    ensures forall k :: 0 <= k < |es| ==> es[k] < e
  {
    match e
    case ReadInteger(_, a) => [a]
    case CountInRange(_, a, b) => [a, b]
    case Offset(_, a) => [a]
    case Length(_, a) => [a]
    case Negate(a) => [a]
    case Arithmetic(_, a, b) => [a, b]
    case IntArithmetic(_, a, b) => [a, b]
    case BitwiseNot(a) => [a]
    case Conj(es) => es
    case Disj(es) => es
    case Negation(a) => [a]
    case Compare(a, b, _, _) => [a, b]
    case Equals(a, b, _) => [a, b]
    case StringOperation(_, a, b, _) => [a, b]
    case MatchesRe(a, _) => [a]
    case IsDefined(a) => [a]
    case VariableAt(_, a) => [a]
    case VariableIn(_, a, b) => [a, b]
    case _ => []
  }

  /** The arguments of a path from its `i`th step on, in order. */
  function Arguments(id: Identifier, i: nat): (es: seq<Source>)
    requires i <= |id.path|
    ensures forall k :: 0 <= k < |es| ==> es[k] < id
    decreases |id.path| - i
  {
    if i == |id.path| then [] else StepArguments(id, i) + Arguments(id, i + 1)
  }

  function StepArguments(id: Identifier, i: nat): (es: seq<Source>)
    requires i < |id.path|
    ensures forall k :: 0 <= k < |es| ==> es[k] < id
  {
    assert id.path[i] < id;
    match id.path[i]
    case Field(_) => []
    case Index(e) => [e]
    case Apply(es) => es
  }

  function OpOf(a: Access): Op {
    match a
    case Field(f) => Subfield(f)
    case Index(_) => Subscript
    case Apply(es) => Call(|es|)
  }

  function Ops(path: seq<Access>): (ops: seq<Op>)
    ensures |ops| == |path| && forall j :: 0 <= j < |ops| ==> ops[j] == OpOf(path[j])
  {
    seq(|path|, j requires 0 <= j < |path| => OpOf(path[j]))
  }

  // ----- What a condition means -----

  /** The values of the names in scope, the variable selected, and the matches. */
  datatype Scope = Scope(names: map<string, ModuleValue>, selected: Option<nat>, matches: Option<seq<seq<StringMatch>>>)

  import opened VarMatches

  /** The part of the scope that the operators on variables look at. */
  function Plain(env: Scope): Env {
    Env(env.selected, [], env.matches)
  }

  function OnVariable(k: Context, name: string, f: VariableIndex -> Result): Result {
    var x := VariableNamed(k, name);
    if x.None? then Err(Stuck) else f(x.value)
  }

  /** An operator applied to the results of its operands. */
  function Operate(c: Scan, k: Context, env: Scope, e: Source, rs: seq<Result>): Result
    requires IsOperator(e) && |rs| == |Operands(e)|
  {
    match e
    case Const(v) => Ok(v)
    case Filesize => if c.filesize.Some? then Ok(Integer(Min(c.filesize.value, I64_MAX))) else Err(Undefined)
    case Entrypoint => if c.entrypoint.Some? then ToI64(c.entrypoint.value) else Err(Undefined)
    case ReadInteger(ty, _) => EvalRead(c, ty, rs[0])
    case Count(x) => OnVariable(k, x, i => EvalCount(Plain(env), i))
    case CountInRange(x, _, _) => OnVariable(k, x, i => EvalCountIn(Plain(env), i, rs[0], rs[1]))
    case Offset(x, _) => OnVariable(k, x, i => EvalOffset(Plain(env), i, rs[0]))
    case Length(x, _) => OnVariable(k, x, i => EvalLength(Plain(env), i, rs[0]))
    case Negate(_) => Neg(c, rs[0])
    case Arithmetic(op, _, _) => Arith(c, op, rs[0], rs[1])
    case IntArithmetic(op, _, _) => IntArith(op, rs[0], rs[1])
    case BitwiseNot(_) => BitNot(rs[0])
    case Conj(_) => Conjunction(c, rs, false)
    case Disj(_) => Disjunction(c, rs, false)
    case Negation(_) => Not(c, rs[0])
    case Compare(_, _, lessThan, canBeEqual) => Cmp(c, rs[0], rs[1], lessThan, canBeEqual)
    case Equals(_, _, negated) => Eq(c, rs[0], rs[1], negated)
    case StringOperation(op, _, _, ci) => Strings(op, ci, rs[0], rs[1])
    case MatchesRe(_, regex) => MatchesRegex(c, rs[0], regex)
    case IsDefined(_) => Defined(rs[0])
    case Variable(x) => OnVariable(k, x, i => EvalVariable(Plain(env), i))
    case VariableAt(x, _) => OnVariable(k, x, i => EvalVariableAt(Plain(env), i, rs[0]))
    case VariableIn(x, _, _) => OnVariable(k, x, i => EvalVariableIn(Plain(env), i, rs[0], rs[1]))
  }

  function Select(env: Scope, index: nat): Scope {
    env.(selected := Some(index))
  }

  /** Bind the names to the values of a turn. */
  function Bind(env: Scope, names: seq<string>, vs: seq<ModuleValue>): Scope
    decreases names
  {
    if names == [] || vs == [] then env
    else Bind(env.(names := env.names[names[0] := vs[0]]), names[1..], vs[1..])
  }

  /** Is the rule known to match? A global rule does, for otherwise no other rule is evaluated. */
  function RuleTri(c: Scan, index: Option<nat>): S.Tri {
    S.Known(index.None? || (index.value < |c.rules| && c.rules[index.value]))
  }

  function TrisOfRules(c: Scan, rules: seq<Option<nat>>): (ts: seq<S.Tri>)
    ensures |ts| == |rules| && forall k :: 0 <= k < |ts| ==> ts[k] == RuleTri(c, rules[k])
  {
    seq(|rules|, k requires 0 <= k < |rules| => RuleTri(c, rules[k]))
  }

  function Meaning(c: Scan, k: Context, env: Scope, e: Source): Result
    decreases e, 2
  {
    if IsOperator(e) then Operate(c, k, env, e, MeaningOfOperands(c, k, env, e))
    else if IsForVariables(e) then
      var found := VariablesOf(k.variables, e.patterns);
      if found.None? then Err(Stuck)
      else
        var chosen := MeaningOfSelection(c, k, env, e.selection, |found.value|);
        if chosen.Value? then chosen.r else SelectResults(c, chosen.ev, MeaningOfTurns(c, k, env, found.value, e))
    else
      match e
      case ForIdentifiers(selection, _, _, _) =>
        var chosen := MeaningOfSelection(c, k, env, selection, 0);
        if chosen.Value? then chosen.r else UndefinedIsFalse(MeaningOfLoop(c, k, env, chosen.ev, e))
      case ForRules(selection, rules) =>
        var found := RulesOf(k.rules, rules);
        if found.None? then Err(Stuck)
        else
          var chosen := MeaningOfSelection(c, k, env, selection, |found.value|);
          if chosen.Value? then chosen.r else FromVerdict(S.Select(chosen.ev, TrisOfRules(c, found.value), 0))
      case Named(id) => MeaningOfName(c, k, env, id)
  }

  function MeaningOfOperands(c: Scan, k: Context, env: Scope, e: Source): (rs: seq<Result>)
    ensures |rs| == |Operands(e)|
    ensures forall j :: 0 <= j < |rs| ==> rs[j] == Meaning(c, k, env, Operands(e)[j])
    decreases e, 0
  {
    seq(|Operands(e)|, j requires 0 <= j < |Operands(e)| => Meaning(c, k, env, Operands(e)[j]))
  }

  function MeaningOfSelection(c: Scan, k: Context, env: Scope, selection: SourceSelection, nbElements: nat): Chosen
    decreases selection, 0
  {
    match selection
    case AnyOf => Feed(S.Number(1))
    case AllOf => Feed(S.All)
    case NoneOf => Feed(S.Evaluator.None)
    case NumberOf(number, asPercent) => ChooseNumber(c, Meaning(c, k, env, number), asPercent, nbElements)
  }

  /** The body of a `for` on variables, when the variable is selected: without a body, that it matches. */
  function MeaningOfTurn(c: Scan, k: Context, env: Scope, e: Source): Result
    requires IsForVariables(e)
    decreases e, 0
  {
    match e
    case For(_, _, body) => if body.None? then EvalVariable(Plain(env), None) else Meaning(c, k, env, body.value)
    case ForIn(_, _, from, to) => EvalVariableIn(Plain(env), None, Meaning(c, k, env, from), Meaning(c, k, env, to))
    case ForAt(_, _, offset) => EvalVariableAt(Plain(env), None, Meaning(c, k, env, offset))
  }

  function MeaningOfTurns(c: Scan, k: Context, env: Scope, variables: seq<nat>, e: Source): (rs: seq<Result>)
    requires IsForVariables(e)
    ensures |rs| == |variables|
    ensures forall j :: 0 <= j < |rs| ==> rs[j] == MeaningOfTurn(c, k, Select(env, variables[j]), e)
    decreases e, 1
  {
    seq(|variables|, j requires 0 <= j < |variables| => MeaningOfTurn(c, k, Select(env, variables[j]), e))
  }

  function MeaningOfAll(c: Scan, k: Context, env: Scope, es: seq<Source>): (rs: seq<Result>)
    ensures |rs| == |es|
    ensures forall j :: 0 <= j < |rs| ==> rs[j] == Meaning(c, k, env, es[j])
    decreases es, 0
  {
    seq(|es|, j requires 0 <= j < |es| => Meaning(c, k, env, es[j]))
  }

  /** The results of the body, with the names bound to the values of each turn. */
  function MeaningOfBodies(c: Scan, k: Context, env: Scope, names: seq<string>, turns: seq<seq<ModuleValue>>, body: Source)
    : (rs: seq<Result>)
    ensures |rs| == |turns|
    ensures forall j :: 0 <= j < |rs| ==> rs[j] == Meaning(c, k, Bind(env, names, turns[j]), body)
    decreases body, 3
  {
    seq(|turns|, j requires 0 <= j < |turns| => Meaning(c, k, Bind(env, names, turns[j]), body))
  }

  /** The results of the body for the items of a list; none is needed for an item that has no value. */
  function MeaningOfItems(c: Scan, k: Context, env: Scope, names: seq<string>, items: seq<Result>, body: Source)
    : (rs: seq<Result>)
    ensures |rs| == |items|
    ensures forall j :: 0 <= j < |rs| ==>
              rs[j] == if ItemOf(items[j]).Ok? then Meaning(c, k, Bind(env, names, [ItemOf(items[j]).v]), body)
                       else Err(Undefined)
    decreases body, 3
  {
    seq(|items|, j requires 0 <= j < |items| =>
      if ItemOf(items[j]).Ok? then Meaning(c, k, Bind(env, names, [ItemOf(items[j]).v]), body) else Err(Undefined))
  }

  function MeaningOfLoop(c: Scan, k: Context, env: Scope, ev: S.Evaluator, e: Source): Result
    requires e.ForIdentifiers?
    decreases e, 1
  {
    match e.iter
    case Iterable(id) =>
      var v := ValueOf(c, k, env, id);
      if v.Err? then Err(v.p)
      else
        var turns := Bindings(v.v);
        if turns.Err? then Err(turns.p)
        else SelectResults(c, ev, MeaningOfBodies(c, k, env, e.names, turns.v, e.body))
    case Between(from, to) =>
      var f := IntOf(Meaning(c, k, env, from));
      if f.Err? then Err(f.p)
      else
        var t := IntOf(Meaning(c, k, env, to));
        if t.Err? then Err(t.p)
        else if f.v > t.v then Err(Undefined)
        else SelectResults(c, ev, MeaningOfBodies(c, k, env, e.names, RangeTurns(f.v, t.v), e.body))
    case Listed(items) =>
      var rs := MeaningOfAll(c, k, env, items);
      SelectItems(c, ev, rs, MeaningOfItems(c, k, env, e.names, rs, e.body), 0)
  }

  function MeaningOfArguments(c: Scan, k: Context, env: Scope, id: Identifier, i: nat): (rs: seq<Result>)
    requires i <= |id.path|
    ensures |rs| == |Arguments(id, i)|
    ensures forall j :: 0 <= j < |rs| ==> rs[j] == Meaning(c, k, env, Arguments(id, i)[j])
    decreases id, 0
  {
    seq(|Arguments(id, i)|, j requires 0 <= j < |Arguments(id, i)| => Meaning(c, k, env, Arguments(id, i)[j]))
  }

  /** Where a path starts: a bound name, or else a module. The first step in a module goes to its static value of that
      name, or else to the value it computes during the scan. The number is that of the steps already made. */
  function Start(c: Scan, k: Context, env: Scope, id: Identifier): Option<(ModuleValue, nat)> {
    if id.name in env.names then Some((env.names[id.name], 0))
    else if id.name !in k.modules || id.path == [] || !id.path[0].Field? then None
    else
      var m := k.modules[id.name];
      var field := id.path[0].field;
      if field in m.statics then Some((OfStatic(m.statics[field]), 1))
      else if m.index < |c.modules| then Some((c.modules[m.index], 0))
      else None
  }

  /** The value at the end of a path. Its arguments are all computed first. */
  function ValueOf(c: Scan, k: Context, env: Scope, id: Identifier): Res<ModuleValue>
    decreases id, 1
  {
    var start := Start(c, k, env, id);
    if start.None? then Err(Stuck)
    else
      var args := Collect(MeaningOfArguments(c, k, env, id, start.value.1));
      if args.Err? then Err(args.p) else EvalOps(c, start.value.0, Ops(id.path[start.value.1..]), args.v)
  }

  /** A name is a bound identifier, a module, a rule or an external symbol, in that order. */
  function MeaningOfName(c: Scan, k: Context, env: Scope, id: Identifier): Result
    decreases id, 2
  {
    if id.name in env.names || id.name in k.modules then
      var v := ValueOf(c, k, env, id);
      if v.Err? then Err(v.p) else FromModule(c, v.v)
    else
      var rule := Find(k.rules, id.name);
      if rule.Some? then
        if id.path == [] then FromVerdict(S.Decided(RuleTri(c, rule.value).b)) else Err(Stuck)
      else
        var symbol := IndexOf(Names(k.externals), id.name);
        if symbol.Some? && symbol.value < |c.externals| then Ok(c.externals[symbol.value]) else Err(Stuck)
  }
}
