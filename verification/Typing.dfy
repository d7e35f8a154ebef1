/** Which conditions compile: a declarative type system, in which an operator fits its operands when no values of their
    types make it stuck, and the proof that the compiler accepts exactly what has a type in it. */
module Typing {
  import opened Base
  import opened Values
  import opened Types
  import opened Sources
  import opened Expressions
  import opened Compiling
  import RuleCompiling

  // ----- Operators -----

  /** The matches of the variables are known for all of them, or for none. */
  predicate Ready(k: Context, env: Scope) {
    env.matches.Some? ==>
      && |k.variables| <= |env.matches.value|
      && (env.selected.Some? ==> env.selected.value < |env.matches.value|)
  }

  /** Values of these types. */
  predicate AreValues(rs: seq<Result>, tys: seq<Type>) {
    |rs| == |tys| && forall j :: 0 <= j < |rs| ==> rs[j].Ok? && TypeOf(rs[j].v) == tys[j]
  }

  predicate Applies(c: Scan, k: Context, env: Scope, e: Source, rs: seq<Result>, tys: seq<Type>, r: Result)
    requires Sources.IsOperator(e) && |tys| == |Sources.Operands(e)|
  {
    Ready(k, env) && AreValues(rs, tys) && Operate(c, k, env, e, rs) == r
  }

  /** Do some values of these types give this result? */
  ghost predicate Yields(k: Context, e: Source, tys: seq<Type>, r: Result)
    requires Sources.IsOperator(e) && |tys| == |Sources.Operands(e)|
  {
    exists c, env, rs :: Applies(c, k, env, e, rs, tys, r)
  }

  ghost predicate YieldsType(k: Context, e: Source, tys: seq<Type>, ty: Type)
    requires Sources.IsOperator(e) && |tys| == |Sources.Operands(e)|
  {
    exists v :: TypeOf(v) == ty && Yields(k, e, tys, Ok(v))
  }

  /** Bytes stand for a boolean, when a warning is an error. */
  predicate Warned(k: Context, ty: Type) {
    ty.BytesType? && k.failOnWarnings
  }

  predicate WarnedOperand(k: Context, e: Source, tys: seq<Type>) {
    (e.Conj? || e.Disj? || e.Negation?) && exists j :: 0 <= j < |tys| && Warned(k, tys[j])
  }

  /** The operator is never stuck on operands of these types, and gives values of this type. */
  ghost predicate Suits(k: Context, e: Source, tys: seq<Type>, ty: Type)
    requires Sources.IsOperator(e) && |tys| == |Sources.Operands(e)|
  {
    !WarnedOperand(k, e, tys) && !Yields(k, e, tys, Err(Stuck)) && YieldsType(k, e, tys, ty)
  }

  function Example(ty: Type): (v: Value)
    ensures TypeOf(v) == ty
  {
    match ty
    case IntegerType => Integer(1)
    case FloatType => Floating(Float(0))
    case BytesType => Bytes([])
    case RegexType => Regex(0)
    case BooleanType => Boolean(true)
  }

  function Examples(tys: seq<Type>): (rs: seq<Result>)
    ensures AreValues(rs, tys)
  {
    seq(|tys|, j requires 0 <= j < |tys| => Ok(Example(tys[j])))
  }

  function SomeScan(): Scan {
    Scan(Some(1), Some(1), (_, _) => Some(1), (_, _, _) => Float(0), _ => Float(0), _ => Float(0), (_, _, _) => true,
         (_, _) => true, _ => true, _ => false, (_, _) => 1, (_, _) => true, (_, _) => None, [], [], [])
  }

  /** One match of each variable, and one of them selected. */
  function SomeScope(k: Context): (env: Scope)
    ensures Ready(k, env)
  {
    Scope(map[], Some(0), Some(seq(|k.variables| + 1, _ => [VarMatches.StringMatch(0, 0, 0)])))
  }

  lemma {:induction false} ConnectivesGiveBooleans(c: Scan, rs: seq<Result>)
    requires forall j :: 0 <= j < |rs| ==> rs[j].Ok?
    ensures Conjunction(c, rs, false).Ok? && Conjunction(c, rs, false).v.Boolean?
    ensures Disjunction(c, rs, false).Ok? && Disjunction(c, rs, false).v.Boolean?
    decreases |rs|
  {
    if rs != [] { ConnectivesGiveBooleans(c, rs[1..]); }
  }

  /** A variable that is known has its matches, or needs them. */
  lemma KnownVariable(k: Context, env: Scope, name: string)
    requires Ready(k, env) && VariableNamed(k, name).Some?
    ensures MatchesOf(Plain(env), VariableNamed(k, name).value) != Err(Stuck)
  {
  }

  lemma OnVariableFits(c: Scan, k: Context, env: Scope, e: Source, xs: seq<Typed>, rs: seq<Result>)
    requires IsOnVariable(e) && |xs| == |Sources.Operands(e)| && AreValues(rs, TypesIn(xs)) && Ready(k, env)
    requires Build(k, e, xs).Some?
    ensures HasType(Operate(c, k, env, e, rs), Build(k, e, xs).value.ty)
  {
    KnownVariable(k, env, e.name);
    assert |rs| > 0 ==> rs[0].Ok? && TypeOf(rs[0].v) == xs[0].ty;
    assert |rs| > 1 ==> rs[1].Ok? && TypeOf(rs[1].v) == xs[1].ty;
  }

  lemma PlainFits(c: Scan, k: Context, env: Scope, e: Source, xs: seq<Typed>, rs: seq<Result>)
    requires Sources.IsOperator(e) && !IsOnVariable(e) && |xs| == |Sources.Operands(e)| && AreValues(rs, TypesIn(xs))
    requires BuildPlain(k, e, xs).Some?
    ensures HasType(Operate(c, k, env, e, rs), BuildPlain(k, e, xs).value.ty)
  {
    assert |rs| > 0 ==> rs[0].Ok? && TypeOf(rs[0].v) == xs[0].ty;
    assert |rs| > 1 ==> rs[1].Ok? && TypeOf(rs[1].v) == xs[1].ty;
    if e.Conj? || e.Disj? { ConnectivesGiveBooleans(c, rs); }
  }

  /** What was built is never stuck, and gives its type. */
  lemma BuiltFits(c: Scan, k: Context, env: Scope, e: Source, xs: seq<Typed>, rs: seq<Result>)
    requires Sources.IsOperator(e) && |xs| == |Sources.Operands(e)| && AreValues(rs, TypesIn(xs)) && Ready(k, env)
    requires Build(k, e, xs).Some?
    ensures HasType(Operate(c, k, env, e, rs), Build(k, e, xs).value.ty)
  {
    if IsOnVariable(e) { OnVariableFits(c, k, env, e, xs, rs); } else { PlainFits(c, k, env, e, xs, rs); }
  }

  /** Some values show the type of what was built. */
  lemma BuiltAttained(k: Context, e: Source, xs: seq<Typed>)
    requires Sources.IsOperator(e) && |xs| == |Sources.Operands(e)| && Build(k, e, xs).Some?
    ensures YieldsType(k, e, TypesIn(xs), Build(k, e, xs).value.ty)
  {
    hide Operate, Build, BuildPlain, BuildOnVariable;
    var c, env, rs := SomeScan(), SomeScope(k), Examples(TypesIn(xs));
    var r := Operate(c, k, env, e, rs);
    BuiltFits(c, k, env, e, xs, rs);
    ExampleDefined(k, e, xs);
    assert Applies(c, k, env, e, rs, TypesIn(xs), r);
  }

  lemma ExampleDefined(k: Context, e: Source, xs: seq<Typed>)
    requires Sources.IsOperator(e) && |xs| == |Sources.Operands(e)| && Build(k, e, xs).Some?
    ensures Operate(SomeScan(), k, SomeScope(k), e, Examples(TypesIn(xs))).Ok?
  {
    hide Operate, BuildPlain, BuildOnVariable, Ready;
    var c, env, rs := SomeScan(), SomeScope(k), Examples(TypesIn(xs));
    if IsOnVariable(e) { OnVariableDefined(c, k, env, e, xs, rs); } else { PlainDefined(c, k, env, e, xs, rs); }
  }

  lemma PlainDefined(c: Scan, k: Context, env: Scope, e: Source, xs: seq<Typed>, rs: seq<Result>)
    requires Sources.IsOperator(e) && !IsOnVariable(e) && |xs| == |Sources.Operands(e)| && BuildPlain(k, e, xs).Some?
    requires c == SomeScan() && rs == Examples(TypesIn(xs))
    ensures Operate(c, k, env, e, rs).Ok?
  {
    assert |rs| > 0 ==> rs[0] == Ok(Example(xs[0].ty));
    assert |rs| > 1 ==> rs[1] == Ok(Example(xs[1].ty));
    if e.Conj? || e.Disj? { ConnectivesGiveBooleans(c, rs); }
  }

  lemma OnVariableDefined(c: Scan, k: Context, env: Scope, e: Source, xs: seq<Typed>, rs: seq<Result>)
    requires IsOnVariable(e) && |xs| == |Sources.Operands(e)| && Build(k, e, xs).Some?
    requires env == SomeScope(k) && rs == Examples(TypesIn(xs))
    ensures Operate(c, k, env, e, rs).Ok?
  {
    assert |rs| > 0 ==> rs[0] == Ok(Example(xs[0].ty));
    assert |rs| > 1 ==> rs[1] == Ok(Example(xs[1].ty));
  }

  lemma PlainStuck(c: Scan, k: Context, env: Scope, e: Source, xs: seq<Typed>, rs: seq<Result>)
    requires Sources.IsOperator(e) && !IsOnVariable(e) && |xs| == |Sources.Operands(e)| && AreValues(rs, TypesIn(xs))
    requires BuildPlain(k, e, xs).None? && !WarnedOperand(k, e, TypesIn(xs))
    ensures Operate(c, k, env, e, rs) == Err(Stuck)
  {
    assert |rs| > 0 ==> rs[0].Ok? && TypeOf(rs[0].v) == xs[0].ty;
    assert |rs| > 1 ==> rs[1].Ok? && TypeOf(rs[1].v) == xs[1].ty;
  }

  lemma OnVariableStuck(c: Scan, k: Context, env: Scope, e: Source, xs: seq<Typed>, rs: seq<Result>)
    requires IsOnVariable(e) && |xs| == |Sources.Operands(e)|
    requires rs == Examples(TypesIn(xs)) && Build(k, e, xs).None?
    ensures Operate(c, k, env, e, rs) == Err(Stuck)
  {
    assert |rs| > 0 ==> rs[0] == Ok(Example(xs[0].ty));
    assert |rs| > 1 ==> rs[1] == Ok(Example(xs[1].ty));
  }

  /** What is refused is stuck on some values, unless it is for a warning. */
  lemma RefusedStuck(k: Context, e: Source, xs: seq<Typed>)
    requires Sources.IsOperator(e) && |xs| == |Sources.Operands(e)| && Build(k, e, xs).None?
    requires !WarnedOperand(k, e, TypesIn(xs))
    ensures Yields(k, e, TypesIn(xs), Err(Stuck))
  {
    hide Operate, BuildPlain, BuildOnVariable, Ready, WarnedOperand;
    var c, env, rs := SomeScan(), SomeScope(k), Examples(TypesIn(xs));
    if IsOnVariable(e) { OnVariableStuck(c, k, env, e, xs, rs); } else { PlainStuck(c, k, env, e, xs, rs); }
    assert Applies(c, k, env, e, rs, TypesIn(xs), Err(Stuck));
  }

  /** An operator is compiled to a type exactly when it suits the types of its operands: it is refused for a warning, or
      because some values of these types make it stuck, as they do when its variable is unknown. */
  lemma BuildsIff(k: Context, e: Source, xs: seq<Typed>, ty: Type)
    requires Sources.IsOperator(e) && |xs| == |Sources.Operands(e)|
    ensures Build(k, e, xs).Some? && Build(k, e, xs).value.ty == ty <==> Suits(k, e, TypesIn(xs), ty)
    ensures Build(k, e, xs).None? <==> WarnedOperand(k, e, TypesIn(xs)) || Yields(k, e, TypesIn(xs), Err(Stuck))
  {
    hide Operate, Build, BuildPlain, BuildOnVariable, Ready, WarnedOperand;
    var tys := TypesIn(xs);
    if Build(k, e, xs).None? {
      if !WarnedOperand(k, e, tys) { RefusedStuck(k, e, xs); }
    } else {
      var b := Build(k, e, xs).value.ty;
      NotWarned(k, e, xs);
      BuiltAttained(k, e, xs);
      forall c, env, rs, r | Applies(c, k, env, e, rs, tys, r) ensures HasType(r, b) { BuiltFits(c, k, env, e, xs, rs); }
    }
  }

  lemma NotWarned(k: Context, e: Source, xs: seq<Typed>)
    requires Sources.IsOperator(e) && |xs| == |Sources.Operands(e)| && Build(k, e, xs).Some?
    ensures !WarnedOperand(k, e, TypesIn(xs))
  {
  }

  // ----- Paths -----

  /** The type of a static value. */
  function TypeOfStatic(s: StaticValue): ModuleType {
    match s
    case StaticScalar(v) => Scalar(TypeOf(v))
    case StaticObject(fields) => ObjectType(map f | f in fields :: TypeOfStatic(fields[f]))
    case StaticFun(_, signatures, result) => FunctionType(signatures, result)
  }

  function TypeAt(current: Current): ModuleType {
    if current.AtValue? then TypeOfStatic(current.v) else current.t
  }

  /** One access, with arguments of these types, from a type to the next. */
  predicate Reaches(from: ModuleType, a: Access, args: seq<Type>, next: ModuleType) {
    match a
    case Field(f) => from.ObjectType? && f in from.fields && next == from.fields[f]
    case Index(_) =>
      || (from.ArrayType? && args == [IntegerType] && next == from.item)
      || (from.DictionaryType? && args == [BytesType] && next == from.value)
    case Apply(_) =>
      && from.FunctionType? && next == from.result
      && ((from.signatures == [] && args == []) || exists j :: 0 <= j < |from.signatures| && Declares(from.signatures[j], args))
  }

  predicate Declares(signature: seq<ModuleType>, args: seq<Type>) {
    |signature| == |args| && forall j :: 0 <= j < |args| ==> signature[j] == Scalar(args[j])
  }

  /** A whole path, with the types of the arguments of each access. */
  ghost predicate Leads(from: ModuleType, path: seq<Access>, argss: seq<seq<Type>>, to: ModuleType)
    decreases path
  {
    if path == [] then argss == [] && from == to
    else argss != [] && exists next :: Reaches(from, path[0], argss[0], next) && Leads(next, path[1..], argss[1..], to)
  }

  function TypesInAll(xss: seq<seq<Typed>>): (argss: seq<seq<Type>>)
    ensures |argss| == |xss| && forall j :: 0 <= j < |argss| ==> argss[j] == TypesIn(xss[j])
  {
    seq(|xss|, j requires 0 <= j < |xss| => TypesIn(xss[j]))
  }

  /** One access is accepted from a static value as from its type. */
  lemma StepsIff(current: Current, a: Access, args: seq<Type>, next: ModuleType)
    ensures StepType(current, a, args).Some? && TypeAt(StepType(current, a, args).value) == next
            <==> Reaches(TypeAt(current), a, args, next)
  {
  }

  lemma {:induction false} FollowsIff(path: seq<Access>, current: Current, immediate: Option<StaticValue>,
                                      xss: seq<seq<Typed>>, to: ModuleType)
    requires |xss| == |path|
    ensures Follow(path, current, immediate, xss).Some? && TypeAt(Follow(path, current, immediate, xss).value.current) == to
            <==> Leads(TypeAt(current), path, TypesInAll(xss), to)
    decreases |path|
  {
    if path != [] {
      var argss := TypesInAll(xss);
      assert argss[1..] == TypesInAll(xss[1..]);
      var next := StepType(current, path[0], argss[0]);
      forall t { StepsIff(current, path[0], argss[0], t); }
      if next.Some? {
        FollowsIff(path[1..], next.value, if next.value.AtValue? then Some(next.value.v) else immediate, xss[1..], to);
      }
    }
  }

  // ----- Names and patterns -----

  /** The names in scope, with the types of their values. */
  type Names = map<string, ModuleType>

  predicate Picks(p: Pattern, name: string) {
    if p.isWildcard then p.name <= name else p.name == name
  }

  predicate PicksSome(p: Pattern, names: seq<string>) {
    exists i :: 0 <= i < |names| && Picks(p, names[i])
  }

  predicate AllPickSome(patterns: seq<Pattern>, names: seq<string>) {
    forall j :: 0 <= j < |patterns| ==> PicksSome(patterns[j], names)
  }

  /** The names of a loop are new, and differ. */
  predicate Unbound(scope: Names, names: seq<string>) {
    && (forall j :: 0 <= j < |names| ==> names[j] !in scope)
    && (forall i, j :: 0 <= i < j < |names| ==> names[i] != names[j])
  }

  function Extended(scope: Names, names: seq<string>, tys: seq<ModuleType>): Names
    requires |names| == |tys|
    decreases names
  {
    if names == [] then scope else Extended(scope[names[0] := tys[0]], names[1..], tys[1..])
  }

  /** Where a path starts, and the accesses already made: at a bound name, at the static value of a module, or at what the
      module computes. */
  function StartOf(k: Context, scope: Names, id: Identifier): (r: Option<(ModuleType, nat)>)
    ensures r.Some? ==> r.value.1 <= |id.path|
  {
    if id.name in scope then Some((scope[id.name], 0))
    else if id.name !in k.modules || id.path == [] || !id.path[0].Field? then None
    else
      var m := k.modules[id.name];
      if id.path[0].field in m.statics then Some((TypeOfStatic(m.statics[id.path[0].field]), 1))
      else Some((ObjectType(m.dynamic), 0))
  }

  // ----- The type system -----

  /** Every value of this type is an integer, as the bounds of ranges and the numbers of selections have to be. */
  ghost predicate Counts(ty: Type) {
    forall v: Value :: TypeOf(v) == ty ==> IntOf(Ok(v)).Ok?
  }

  /** Every value of this type can be bound by a loop over a list. */
  ghost predicate Binds(ty: Type) {
    forall v: Value :: TypeOf(v) == ty ==> ItemOf(Ok(v)).Ok?
  }

  /** The types bound by each turn over the values of a type. */
  predicate Iterates(t: ModuleType, tys: seq<ModuleType>) {
    (t.ArrayType? && tys == [t.item]) || (t.DictionaryType? && tys == [Scalar(BytesType), t.value])
  }

  ghost predicate Has(k: Context, scope: Names, e: Source, ty: Type)
    decreases e, 2
  {
    if Sources.IsOperator(e) then
      exists tys: seq<Type> :: OperandsHave(k, scope, e, tys) && Suits(k, e, tys, ty)
    else if IsForVariables(e) then
      && ty.BooleanType? && SelectionFits(k, scope, e.selection) && TurnFits(k, scope, e)
      && (e.patterns == [] ==> k.variables != []) && AllPickSome(e.patterns, k.variables)
    else
      match e
      case ForIdentifiers(_, _, _, _) => ty.BooleanType? && LoopFits(k, scope, e)
      case ForRules(selection, patterns) =>
        ty.BooleanType? && SelectionFits(k, scope, selection) && AllPickSome(patterns, Sources.Names(k.rules))
      case Named(id) => NameHas(k, scope, id, ty)
  }

  ghost predicate OperandsHave(k: Context, scope: Names, e: Source, tys: seq<Type>)
    decreases e, 0
  {
    |tys| == |Sources.Operands(e)| && forall j :: 0 <= j < |tys| ==> Has(k, scope, Sources.Operands(e)[j], tys[j])
  }

  ghost predicate IsCount(k: Context, scope: Names, e: Source)
    decreases e, 3
  {
    exists ty :: Has(k, scope, e, ty) && Counts(ty)
  }

  ghost predicate IsCondition(k: Context, scope: Names, e: Source)
    decreases e, 3
  {
    exists ty :: Has(k, scope, e, ty) && !Warned(k, ty)
  }

  ghost predicate SelectionFits(k: Context, scope: Names, selection: SourceSelection)
    decreases selection, 0
  {
    selection.NumberOf? ==> IsCount(k, scope, selection.number)
  }

  ghost predicate TurnFits(k: Context, scope: Names, e: Source)
    requires IsForVariables(e)
    decreases e, 0
  {
    match e
    case For(_, _, each) => each.Some? ==> IsCondition(k, scope, each.value)
    case ForIn(_, _, from, to) => IsCount(k, scope, from) && IsCount(k, scope, to)
    case ForAt(_, _, offset) => IsCount(k, scope, offset)
  }

  ghost predicate LoopFits(k: Context, scope: Names, e: Source)
    requires e.ForIdentifiers?
    decreases e, 1
  {
    SelectionFits(k, scope, e.selection) && exists tys :: Turns(k, scope, e.iter, tys) && BodyFits(k, scope, e, tys)
  }

  ghost predicate BodyFits(k: Context, scope: Names, e: Source, tys: seq<ModuleType>)
    requires e.ForIdentifiers?
    decreases e, 0
  {
    |tys| == |e.names| && Unbound(scope, e.names) && IsCondition(k, Extended(scope, e.names, tys), e.body)
  }

  /** Each turn binds values of these types. What a static function returns cannot be iterated over. */
  ghost predicate Turns(k: Context, scope: Names, iter: SourceIterator, tys: seq<ModuleType>)
    decreases iter, 0
  {
    match iter
    case Iterable(id) =>
      && StartOf(k, scope, id).Some? && StartOf(k, scope, id).value.1 == 0
      && exists t :: PathHas(k, scope, id, t) && Iterates(t, tys)
    case Between(from, to) => IsCount(k, scope, from) && IsCount(k, scope, to) && tys == [Scalar(IntegerType)]
    case Listed(items) =>
      if items == [] then tys == [Scalar(IntegerType)]
      else |tys| == 1 && tys[0].Scalar? && Binds(tys[0].ty) && forall j :: 0 <= j < |items| ==> Has(k, scope, items[j], tys[0].ty)
  }

  ghost predicate StepHas(k: Context, scope: Names, id: Identifier, i: nat, tys: seq<Type>)
    requires i < |id.path|
    decreases id, 0
  {
    |tys| == |StepArguments(id, i)| && forall j :: 0 <= j < |tys| ==> Has(k, scope, StepArguments(id, i)[j], tys[j])
  }

  ghost predicate ArgumentsHave(k: Context, scope: Names, id: Identifier, i: nat, argss: seq<seq<Type>>)
    requires i <= |id.path|
    decreases id, 1
  {
    |argss| == |id.path| - i && forall j :: 0 <= j < |argss| ==> StepHas(k, scope, id, i + j, argss[j])
  }

  ghost predicate PathHas(k: Context, scope: Names, id: Identifier, t: ModuleType)
    decreases id, 3
  {
    var start := StartOf(k, scope, id);
    start.Some? && PathFrom(k, scope, id, start.value.1, start.value.0, t)
  }

  ghost predicate PathFrom(k: Context, scope: Names, id: Identifier, i: nat, from: ModuleType, t: ModuleType)
    requires i <= |id.path|
    decreases id, 2
  {
    exists argss :: ArgumentsHave(k, scope, id, i, argss) && Leads(from, id.path[i..], argss, t)
  }

  /** A name is a bound identifier, a module, a rule or an external symbol, in that order. Regexes are no values. */
  ghost predicate NameHas(k: Context, scope: Names, id: Identifier, ty: Type)
    decreases id, 4
  {
    if id.name in scope || id.name in k.modules then !ty.RegexType? && PathHas(k, scope, id, Scalar(ty))
    else if exists j :: 0 <= j < |k.rules| && k.rules[j].0 == id.name then ty.BooleanType? && id.path == []
    else exists j :: FirstNamed(k.externals, id.name, j) && k.externals[j].1 == ty
  }

  predicate FirstNamed<T>(entries: seq<(string, T)>, name: string, j: int) {
    0 <= j < |entries| && entries[j].0 == name && forall i :: 0 <= i < j ==> entries[i].0 != name
  }

  // ----- The compiler accepts what has a type -----

  function ScopeOf(bound: Bound): Names {
    map n | n in bound :: bound[n].ty
  }

  predicate CompilesTo(k: Context, bound: Bound, depth: nat, e: Source, ty: Type) {
    Compile(k, bound, depth, e).Some? && Compile(k, bound, depth, e).value.ty == ty
  }

  ghost predicate Agrees(k: Context, bound: Bound, depth: nat, e: Source) {
    forall ty :: CompilesTo(k, bound, depth, e, ty) <==> Has(k, ScopeOf(bound), e, ty)
  }

  ghost predicate AllAgree(k: Context, bound: Bound, depth: nat, es: seq<Source>) {
    forall j :: 0 <= j < |es| ==> Agrees(k, bound, depth, es[j])
  }

  lemma OperandsIff(k: Context, bound: Bound, depth: nat, e: Source, tys: seq<Type>)
    requires AllAgree(k, bound, depth, Sources.Operands(e))
    ensures CompileOperands(k, bound, depth, e).Some? && TypesIn(CompileOperands(k, bound, depth, e).value) == tys
            <==> OperandsHave(k, ScopeOf(bound), e, tys)
  {
    hide Compile, Has, Sources.Operands, ScopeOf;
    var es := Sources.Operands(e);
    var xs := CompileOperands(k, bound, depth, e);
    if OperandsHave(k, ScopeOf(bound), e, tys) {
      forall j | 0 <= j < |es| ensures CompilesTo(k, bound, depth, es[j], tys[j]) {
        assert Agrees(k, bound, depth, es[j]);
      }
      assert TypesIn(xs.value) == tys;
    }
    if xs.Some? && TypesIn(xs.value) == tys {
      forall j | 0 <= j < |es| ensures Has(k, ScopeOf(bound), es[j], tys[j]) {
        assert Agrees(k, bound, depth, es[j]) && CompilesTo(k, bound, depth, es[j], tys[j]);
      }
    }
  }

  lemma StepHasIff(k: Context, bound: Bound, depth: nat, id: Identifier, i: nat, tys: seq<Type>)
    requires i < |id.path| && AllAgree(k, bound, depth, StepArguments(id, i))
    ensures CompileStep(k, bound, depth, id, i).Some? && TypesIn(CompileStep(k, bound, depth, id, i).value) == tys
            <==> StepHas(k, ScopeOf(bound), id, i, tys)
  {
    hide Compile, Has, StepArguments, ScopeOf;
    var es := StepArguments(id, i);
    var xs := CompileStep(k, bound, depth, id, i);
    if StepHas(k, ScopeOf(bound), id, i, tys) {
      forall j | 0 <= j < |es| ensures CompilesTo(k, bound, depth, es[j], tys[j]) {
        assert Agrees(k, bound, depth, es[j]);
      }
      assert TypesIn(xs.value) == tys;
    }
    if xs.Some? && TypesIn(xs.value) == tys {
      forall j | 0 <= j < |es| ensures Has(k, ScopeOf(bound), es[j], tys[j]) {
        assert Agrees(k, bound, depth, es[j]) && CompilesTo(k, bound, depth, es[j], tys[j]);
      }
    }
  }

  ghost predicate PathAgrees(k: Context, bound: Bound, depth: nat, id: Identifier) {
    forall i :: 0 <= i < |id.path| ==> AllAgree(k, bound, depth, StepArguments(id, i))
  }

  lemma ArgumentsComplete(k: Context, bound: Bound, depth: nat, id: Identifier, i: nat, argss: seq<seq<Type>>)
    requires i <= |id.path| && PathAgrees(k, bound, depth, id) && ArgumentsHave(k, ScopeOf(bound), id, i, argss)
    ensures var xss := CompileArguments(k, bound, depth, id, i); xss.Some? && TypesInAll(xss.value) == argss
  {
    hide Compile, Has, StepArguments, ScopeOf, CompileStep, StepHas, AllAgree;
    var xss := CompileArguments(k, bound, depth, id, i);
    var all := seq(|id.path| - i, j requires 0 <= j < |id.path| - i => CompileStep(k, bound, depth, id, i + j));
    assert xss == AllSome(all);
    forall j | 0 <= j < |all| ensures all[j].Some? && TypesIn(all[j].value) == argss[j] {
      StepHasIff(k, bound, depth, id, i + j, argss[j]);
    }
    var found := TypesInAll(xss.value);
    assert forall j :: 0 <= j < |found| ==> found[j] == argss[j];
  }

  lemma ArgumentsIff(k: Context, bound: Bound, depth: nat, id: Identifier, i: nat, argss: seq<seq<Type>>)
    requires i <= |id.path| && PathAgrees(k, bound, depth, id)
    ensures CompileArguments(k, bound, depth, id, i).Some?
            && TypesInAll(CompileArguments(k, bound, depth, id, i).value) == argss
            <==> ArgumentsHave(k, ScopeOf(bound), id, i, argss)
  {
    hide Compile, Has, StepArguments, ScopeOf, CompileStep, StepHas, AllAgree;
    var xss := CompileArguments(k, bound, depth, id, i);
    if ArgumentsHave(k, ScopeOf(bound), id, i, argss) { ArgumentsComplete(k, bound, depth, id, i, argss); }
    if xss.Some? && TypesInAll(xss.value) == argss {
      ArgumentsAre(k, bound, depth, id, i);
      forall j | 0 <= j < |argss| ensures StepHas(k, ScopeOf(bound), id, i + j, argss[j]) {
        assert CompileStep(k, bound, depth, id, i + j) == Some(xss.value[j]);
        StepHasIff(k, bound, depth, id, i + j, argss[j]);
      }
    }
  }

  lemma PathIff(k: Context, bound: Bound, depth: nat, id: Identifier, i: nat, current: Current,
                immediate: Option<StaticValue>, t: ModuleType)
    requires i <= |id.path| && PathAgrees(k, bound, depth, id)
    ensures var p := CompilePath(k, bound, depth, id, i, current, immediate);
            p.Some? && TypeAt(p.value.current) == t <==> PathFrom(k, ScopeOf(bound), id, i, TypeAt(current), t)
  {
    hide Compile, Has, CompileArguments, ArgumentsHave, PathAgrees, Follow, Leads, ScopeOf;
    var xss := CompileArguments(k, bound, depth, id, i);
    forall argss { ArgumentsIff(k, bound, depth, id, i, argss); }
    if xss.Some? {
      ArgumentsIff(k, bound, depth, id, i, TypesInAll(xss.value));
      FollowsIff(id.path[i..], current, immediate, xss.value, t);
    }
  }

  lemma UseIff(k: Context, bound: Bound, depth: nat, id: Identifier, t: ModuleType)
    requires PathAgrees(k, bound, depth, id)
    ensures var use := CompileUse(k, bound, depth, id);
            use.Some? && TypeAt(use.value.path.current) == t <==> PathHas(k, ScopeOf(bound), id, t)
    ensures CompileUse(k, bound, depth, id).Some? ==>
              && StartOf(k, ScopeOf(bound), id).Some?
              && (StartOf(k, ScopeOf(bound), id).value.1 == 0 <==> CompileUse(k, bound, depth, id).value.start.Some?)
  {
    hide Compile, Has, CompilePath, PathFrom, PathAgrees;
    if id.name in bound {
      PathIff(k, bound, depth, id, 0, AtType(bound[id.name].ty), None, t);
    } else if id.name in k.modules && id.path != [] && id.path[0].Field? {
      var m := k.modules[id.name];
      if id.path[0].field in m.statics {
        var s := m.statics[id.path[0].field];
        PathIff(k, bound, depth, id, 1, AtValue(s), Some(s), t);
      } else {
        PathIff(k, bound, depth, id, 0, AtType(ObjectType(m.dynamic)), None, t);
      }
    }
  }

  /** What is kept of the static values on a path. */
  predicate Kept(start: Option<ModuleKind>, current: Current, immediate: Option<StaticValue>) {
    if start.Some? then current.AtType? && immediate.None?
    else if current.AtValue? then immediate == Some(current.v)
    else immediate.Some? && immediate.value.StaticFun?
  }

  lemma {:induction false} FollowKeeps(path: seq<Access>, start: Option<ModuleKind>, current: Current,
                                       immediate: Option<StaticValue>, xss: seq<seq<Typed>>)
    requires |xss| == |path| && Kept(start, current, immediate) && Follow(path, current, immediate, xss).Some?
    ensures var p := Follow(path, current, immediate, xss).value; Kept(start, p.current, p.immediate)
    decreases |path|
  {
    if path != [] {
      var next := StepType(current, path[0], TypesIn(xss[0])).value;
      FollowKeeps(path[1..], start, next, if next.AtValue? then Some(next.v) else immediate, xss[1..]);
    }
  }

  lemma UseKeeps(k: Context, bound: Bound, depth: nat, id: Identifier)
    requires CompileUse(k, bound, depth, id).Some?
    ensures var use := CompileUse(k, bound, depth, id).value; Kept(use.start, use.path.current, use.path.immediate)
  {
    hide Compile, CompileArguments, Follow;
    if id.name in bound {
      var b := bound[id.name];
      FollowKeeps(id.path[0..], Some(BoundedStack(b.index)), AtType(b.ty), None,
                  CompileArguments(k, bound, depth, id, 0).value);
    } else {
      var m := k.modules[id.name];
      if id.path[0].field in m.statics {
        var s := m.statics[id.path[0].field];
        FollowKeeps(id.path[1..], None, AtValue(s), Some(s), CompileArguments(k, bound, depth, id, 1).value);
      } else {
        FollowKeeps(id.path[0..], Some(ModuleValueAt(m.index)), AtType(ObjectType(m.dynamic)), None,
                    CompileArguments(k, bound, depth, id, 0).value);
      }
    }
  }

  lemma ExpressionIff(use: Use, ty: Type)
    requires Kept(use.start, use.path.current, use.path.immediate)
    ensures IntoExpression(use).Some? && IntoExpression(use).value.ty == ty
            <==> TypeAt(use.path.current) == Scalar(ty) && !ty.RegexType?
  {
  }

  lemma {:induction false} FoundIff<T>(entries: seq<(string, T)>, name: string)
    ensures Find(entries, name).Some? <==> exists j :: 0 <= j < |entries| && entries[j].0 == name
    decreases |entries|
  {
    if entries != [] {
      FoundIff(entries[1..], name);
      assert forall j :: 0 <= j < |entries| - 1 ==> entries[1..][j] == entries[j + 1];
      if j :| 0 <= j < |entries| && entries[j].0 == name {
        if j > 0 { assert entries[1..][j - 1].0 == name; }
      }
    }
  }

  lemma SymbolIff(externals: seq<(string, Type)>, name: string, ty: Type)
    ensures var i := IndexOf(Sources.Names(externals), name);
            i.Some? && externals[i.value].1 == ty
            <==> exists j :: FirstNamed(externals, name, j) && externals[j].1 == ty
  {
    var names := Sources.Names(externals);
    var i := IndexOf(names, name);
    if i.Some? {
      forall m | 0 <= m < i.value ensures externals[m].0 != name { assert names[..i.value][m] == names[m]; }
      assert FirstNamed(externals, name, i.value);
    } else {
      forall m | 0 <= m < |externals| ensures externals[m].0 != name { assert names[m] in names; }
    }
  }

  lemma NameIff(k: Context, bound: Bound, depth: nat, id: Identifier, ty: Type)
    requires id.name in bound || id.name in k.modules ==> PathAgrees(k, bound, depth, id)
    ensures var x := CompileName(k, bound, depth, id);
            x.Some? && x.value.ty == ty <==> NameHas(k, ScopeOf(bound), id, ty)
  {
    hide Compile, Has, CompileUse, PathHas, PathAgrees, IntoExpression, FirstNamed;
    if id.name in bound || id.name in k.modules {
      UseIff(k, bound, depth, id, Scalar(ty));
      var use := CompileUse(k, bound, depth, id);
      if use.Some? {
        UseKeeps(k, bound, depth, id);
        ExpressionIff(use.value, ty);
      }
    } else {
      FoundIff(k.rules, id.name);
      SymbolIff(k.externals, id.name, ty);
    }
  }

  lemma ValueTypes(ty: Type)
    ensures Counts(ty) <==> ty.IntegerType?
    ensures Binds(ty) <==> ty.IntegerType? || ty.BytesType?
  {
    assert TypeOf(Example(ty)) == ty;
  }

  lemma CountIff(k: Context, bound: Bound, depth: nat, e: Source)
    requires Agrees(k, bound, depth, e)
    ensures CompilesTo(k, bound, depth, e, IntegerType) <==> IsCount(k, ScopeOf(bound), e)
  {
    hide Compile, Has, Counts;
    forall ty { ValueTypes(ty); }
  }

  lemma ConditionIff(k: Context, bound: Bound, depth: nat, e: Source)
    requires Agrees(k, bound, depth, e)
    ensures var x := Compile(k, bound, depth, e);
            x.Some? && BoolOk(k, x.value.ty) <==> IsCondition(k, ScopeOf(bound), e)
  {
    hide Compile, Has;
    var x := Compile(k, bound, depth, e);
    if x.Some? { assert CompilesTo(k, bound, depth, e, x.value.ty); }
    if IsCondition(k, ScopeOf(bound), e) {
      var ty :| Has(k, ScopeOf(bound), e, ty) && !Warned(k, ty);
      assert CompilesTo(k, bound, depth, e, ty);
    }
  }

  lemma SelectionIff(k: Context, bound: Bound, depth: nat, selection: SourceSelection)
    requires AllAgree(k, bound, depth, RuleCompiling.NumberOfSelection(selection))
    ensures CompileSelection(k, bound, depth, selection).Some? <==> SelectionFits(k, ScopeOf(bound), selection)
  {
    hide Compile, Has, Agrees;
    if selection.NumberOf? {
      assert Agrees(k, bound, depth, RuleCompiling.NumberOfSelection(selection)[0]);
      CountIff(k, bound, depth, selection.number);
    }
  }

  lemma TwoAgree(k: Context, bound: Bound, depth: nat, e: Source, e': Source)
    requires AllAgree(k, bound, depth, [e, e'])
    ensures Agrees(k, bound, depth, e) && Agrees(k, bound, depth, e')
  {
    assert Agrees(k, bound, depth, [e, e'][0]) && Agrees(k, bound, depth, [e, e'][1]);
  }

  /** The two bounds of a range are integers. */
  lemma BoundsIff(k: Context, bound: Bound, depth: nat, from: Source, to: Source)
    requires AllAgree(k, bound, depth, [from, to])
    ensures var f, t := Compile(k, bound, depth, from), Compile(k, bound, depth, to);
            f.Some? && t.Some? && AllAre([f.value, t.value], IntegerType)
            <==> IsCount(k, ScopeOf(bound), from) && IsCount(k, ScopeOf(bound), to)
  {
    hide Compile, Has, IsCount;
    TwoAgree(k, bound, depth, from, to);
    CountIff(k, bound, depth, from);
    CountIff(k, bound, depth, to);
    var f, t := Compile(k, bound, depth, from), Compile(k, bound, depth, to);
    if f.Some? && t.Some? {
      var xs := [f.value, t.value];
      assert AllAre(xs, IntegerType) <==> xs[0].ty.IntegerType? && xs[1].ty.IntegerType?;
    }
  }

  lemma TurnIff(k: Context, bound: Bound, depth: nat, e: Source)
    requires IsForVariables(e) && AllAgree(k, bound, depth, RuleCompiling.TurnParts(e))
    ensures CompileTurn(k, bound, depth, e).Some? <==> TurnFits(k, ScopeOf(bound), e)
  {
    hide Compile, Has, IsCount, IsCondition, Agrees;
    match e
    case For(_, _, each) =>
      if each.Some? {
        assert Agrees(k, bound, depth, RuleCompiling.TurnParts(e)[0]);
        ConditionIff(k, bound, depth, each.value);
      }
    case ForIn(_, _, from, to) => BoundsIff(k, bound, depth, from, to);
    case ForAt(_, _, offset) =>
      assert Agrees(k, bound, depth, RuleCompiling.TurnParts(e)[0]);
      CountIff(k, bound, depth, offset);
  }

  // ----- Sets of variables and rules -----

  lemma {:induction false} PrefixedIff(names: seq<string>, prefix: string, from: nat)
    requires from <= |names|
    ensures Prefixed(names, prefix, from) != [] <==> exists i :: from <= i < |names| && prefix <= names[i]
    decreases |names| - from
  {
    if from < |names| { PrefixedIff(names, prefix, from + 1); }
  }

  lemma SelectedIff(names: seq<string>, p: Pattern)
    ensures Selected(names, p) != [] <==> PicksSome(p, names)
  {
    if p.isWildcard { PrefixedIff(names, p.name, 0); }
  }

  lemma {:induction false} VariablesIff(names: seq<string>, patterns: seq<Pattern>)
    ensures VariablesOfSome(names, patterns).Some? <==> AllPickSome(patterns, names)
    decreases |patterns|
  {
    if patterns != [] {
      SelectedIff(names, patterns[0]);
      VariablesIff(names, patterns[1..]);
      assert patterns == [patterns[0]] + patterns[1..];
    }
  }

  lemma {:induction false} PrefixedRulesIff(rules: seq<(string, Option<nat>)>, prefix: string)
    ensures PrefixedRules(rules, prefix) != [] <==> exists i :: 0 <= i < |rules| && prefix <= rules[i].0
    decreases |rules|
  {
    if rules != [] {
      PrefixedRulesIff(rules[1..], prefix);
      assert forall i :: 0 <= i < |rules| - 1 ==> rules[1..][i] == rules[i + 1];
      if i :| 0 <= i < |rules| && prefix <= rules[i].0 {
        if i > 0 { assert prefix <= rules[1..][i - 1].0; }
      }
    }
  }

  lemma SelectedRulesIff(rules: seq<(string, Option<nat>)>, p: Pattern)
    ensures SelectedRules(rules, p) != [] <==> PicksSome(p, Sources.Names(rules))
  {
    var names := Sources.Names(rules);
    if p.isWildcard { PrefixedRulesIff(rules, p.name); } else { FoundIff(rules, p.name); }
    assert forall i :: 0 <= i < |rules| ==> names[i] == rules[i].0;
  }

  lemma {:induction false} RulesIff(rules: seq<(string, Option<nat>)>, patterns: seq<Pattern>)
    ensures RulesOf(rules, patterns).Some? <==> AllPickSome(patterns, Sources.Names(rules))
    decreases |patterns|
  {
    if patterns != [] {
      SelectedRulesIff(rules, patterns[0]);
      RulesIff(rules, patterns[1..]);
      assert patterns == [patterns[0]] + patterns[1..];
    }
  }

  // ----- Loops on identifiers -----

  lemma {:induction false} UnboundTail(scope: Names, names: seq<string>, ty: ModuleType)
    requires names != []
    ensures Unbound(scope, names) <==> names[0] !in scope && Unbound(scope[names[0] := ty], names[1..])
  {
    if Unbound(scope, names) {
      forall i, j | 0 <= i < j < |names| - 1 ensures names[1..][i] != names[1..][j] {}
    }
    if names[0] !in scope && Unbound(scope[names[0] := ty], names[1..]) {
      forall j | 0 <= j < |names| ensures names[j] !in scope { if j > 0 { assert names[1..][j - 1] == names[j]; } }
      forall i, j | 0 <= i < j < |names| ensures names[i] != names[j] {
        assert names[1..][j - 1] == names[j];
        if i > 0 { assert names[1..][i - 1] == names[i]; }
      }
    }
  }

  lemma {:induction false} AddedIff(bound: Bound, names: seq<string>, tys: seq<ModuleType>)
    requires |names| == |tys|
    ensures AddAllBound(bound, names, tys).Some? <==> Unbound(ScopeOf(bound), names)
    ensures AddAllBound(bound, names, tys).Some? ==>
              ScopeOf(AddAllBound(bound, names, tys).value) == Extended(ScopeOf(bound), names, tys)
    decreases |names|
  {
    if names != [] {
      UnboundTail(ScopeOf(bound), names, tys[0]);
      if names[0] !in bound {
        var one := AddBound(bound, names[0], tys[0]).value;
        assert ScopeOf(one) == ScopeOf(bound)[names[0] := tys[0]];
        AddedIff(one, names[1..], tys[1..]);
      }
    }
  }

  lemma {:induction false} ArgumentIn(id: Identifier, i: nat, j: nat, m: nat)
    requires i <= j < |id.path| && m < |StepArguments(id, j)|
    ensures StepArguments(id, j)[m] in Arguments(id, i)
    decreases j - i
  {
    hide StepArguments;
    assert Arguments(id, i) == StepArguments(id, i) + Arguments(id, i + 1);
    if i < j { ArgumentIn(id, i + 1, j, m); }
  }

  lemma PathAgree(k: Context, bound: Bound, depth: nat, id: Identifier)
    requires AllAgree(k, bound, depth, Arguments(id, 0))
    ensures PathAgrees(k, bound, depth, id)
  {
    hide Agrees, StepArguments, Arguments;
    var all := Arguments(id, 0);
    forall j, m | 0 <= j < |id.path| && 0 <= m < |StepArguments(id, j)|
      ensures Agrees(k, bound, depth, StepArguments(id, j)[m])
    {
      ArgumentIn(id, 0, j, m);
      var n :| 0 <= n < |all| && all[n] == StepArguments(id, j)[m];
    }
  }

  lemma IteratedIff(use: Use, tys: seq<ModuleType>)
    requires Kept(use.start, use.path.current, use.path.immediate)
    ensures IntoIterator(use).Some? && IntoIterator(use).value.tys == tys
            <==> use.start.Some? && Iterates(TypeAt(use.path.current), tys)
  {
  }

  lemma IterableIff(k: Context, bound: Bound, depth: nat, iter: SourceIterator, tys: seq<ModuleType>)
    requires iter.Iterable? && PathAgrees(k, bound, depth, iter.id)
    ensures CompileIterator(k, bound, depth, iter).Some? && CompileIterator(k, bound, depth, iter).value.tys == tys
            <==> Turns(k, ScopeOf(bound), iter, tys)
  {
    hide Compile, Has, CompileUse, PathHas, StartOf, PathAgrees, IntoIterator, Iterates, TypeAt;
    var id := iter.id;
    var use := CompileUse(k, bound, depth, id);
    forall t { UseIff(k, bound, depth, id, t); }
    if use.Some? {
      UseKeeps(k, bound, depth, id);
      IteratedIff(use.value, tys);
      assert PathHas(k, ScopeOf(bound), id, TypeAt(use.value.path.current));
    }
  }

  lemma ItemsIff(k: Context, bound: Bound, depth: nat, items: seq<Source>, ty: Type)
    requires AllAgree(k, bound, depth, items)
    ensures CompileAll(k, bound, depth, items).Some? && AllAre(CompileAll(k, bound, depth, items).value, ty)
            <==> forall j :: 0 <= j < |items| ==> Has(k, ScopeOf(bound), items[j], ty)
  {
    hide Compile, Has, ScopeOf;
    var xs := CompileAll(k, bound, depth, items);
    if forall j :: 0 <= j < |items| ==> Has(k, ScopeOf(bound), items[j], ty) {
      forall j | 0 <= j < |items| ensures CompilesTo(k, bound, depth, items[j], ty) {
        assert Agrees(k, bound, depth, items[j]);
      }
    }
    if xs.Some? && AllAre(xs.value, ty) {
      forall j | 0 <= j < |items| ensures Has(k, ScopeOf(bound), items[j], ty) {
        assert Agrees(k, bound, depth, items[j]) && CompilesTo(k, bound, depth, items[j], ty);
      }
    }
  }

  lemma ListedIff(k: Context, bound: Bound, depth: nat, iter: SourceIterator, tys: seq<ModuleType>)
    requires iter.Listed? && AllAgree(k, bound, depth, iter.items)
    ensures CompileIterator(k, bound, depth, iter).Some? && CompileIterator(k, bound, depth, iter).value.tys == tys
            <==> Turns(k, ScopeOf(bound), iter, tys)
  {
    hide Compile, Has, Agrees, Binds;
    var items := iter.items;
    var xs := CompileAll(k, bound, depth, items);
    forall ty { ItemsIff(k, bound, depth, items, ty); }
    forall ty { ValueTypes(ty); }
    if items != [] && Turns(k, ScopeOf(bound), iter, tys) {
      ItemsIff(k, bound, depth, items, tys[0].ty);
      assert xs.value[0].ty == tys[0].ty && ListType(xs.value) == Some(tys[0].ty);
    }
    if items != [] && xs.Some? && ListType(xs.value).Some? {
      assert ListType(xs.value).value == xs.value[0].ty && AllAre(xs.value, xs.value[0].ty);
    }
  }

  lemma IteratorIff(k: Context, bound: Bound, depth: nat, iter: SourceIterator, tys: seq<ModuleType>)
    requires AllAgree(k, bound, depth, RuleCompiling.PartsOfIterator(iter))
    ensures CompileIterator(k, bound, depth, iter).Some? && CompileIterator(k, bound, depth, iter).value.tys == tys
            <==> Turns(k, ScopeOf(bound), iter, tys)
  {
    hide Compile, Has, Agrees, PathAgrees, IsCount, CompileUse, PathHas;
    match iter
    case Iterable(id) =>
      PathAgree(k, bound, depth, id);
      IterableIff(k, bound, depth, iter, tys);
    case Between(from, to) => BoundsIff(k, bound, depth, from, to);
    case Listed(_) => ListedIff(k, bound, depth, iter, tys);
  }

  /** The body agrees, whatever the types of the names of its loop. */
  ghost predicate BodyAgrees(k: Context, bound: Bound, depth: nat, e: Source)
    requires e.ForIdentifiers?
  {
    forall tys, inner :: AddAllBound(bound, e.names, tys) == Some(inner) ==> Agrees(k, inner, depth, e.body)
  }

  lemma BodyIff(k: Context, bound: Bound, depth: nat, e: Source, tys: seq<ModuleType>)
    requires e.ForIdentifiers? && BodyAgrees(k, bound, depth, e)
    ensures BodyFits(k, ScopeOf(bound), e, tys)
            <==> var inner := AddAllBound(bound, e.names, tys);
                 inner.Some? && Compile(k, inner.value, depth, e.body).Some?
                 && BoolOk(k, Compile(k, inner.value, depth, e.body).value.ty)
  {
    hide Compile, Has, Agrees, ScopeOf, Unbound, IsCondition;
    if |tys| == |e.names| {
      AddedIff(bound, e.names, tys);
      var inner := AddAllBound(bound, e.names, tys);
      if inner.Some? { ConditionIff(k, inner.value, depth, e.body); }
    } else {
      assert AddAllBound(bound, e.names, tys).None?;
    }
  }

  lemma LoopIff(k: Context, bound: Bound, depth: nat, e: Source)
    requires e.ForIdentifiers? && BodyAgrees(k, bound, depth, e)
    requires AllAgree(k, bound, depth, RuleCompiling.NumberOfSelection(e.selection))
    requires AllAgree(k, bound, depth, RuleCompiling.PartsOfIterator(e.iter))
    ensures CompileLoop(k, bound, depth, e).Some? <==> LoopFits(k, ScopeOf(bound), e)
    ensures CompileLoop(k, bound, depth, e).Some? ==> CompileLoop(k, bound, depth, e).value.ty.BooleanType?
  {
    hide Compile, Has, AllAgree, BodyAgrees, Turns, BodyFits, CompileIterator, CompileSelection, SelectionFits;
    SelectionIff(k, bound, depth, e.selection);
    forall tys { IteratorIff(k, bound, depth, e.iter, tys); }
    forall tys { BodyIff(k, bound, depth, e, tys); }
    var turning := CompileIterator(k, bound, depth, e.iter);
    if turning.Some? {
      assert Turns(k, ScopeOf(bound), e.iter, turning.value.tys);
    }
  }

  // ----- Depth -----

  /** The parts of a condition under the limit are under it too. */
  lemma PartsUnder(k: Context, scope: set<string>, depth: nat, e: Source, p: RuleCompiling.Part)
    requires depth + RuleCompiling.Depth(k, scope, e) < k.maxDepth
    ensures depth + 1 < k.maxDepth
    ensures p in RuleCompiling.PartsOf(k, scope, e) ==> depth + 1 + RuleCompiling.Depth(k, p.scope, p.e) < k.maxDepth
  {
    hide RuleCompiling.PartsOf;
    var ps := RuleCompiling.PartsOf(k, scope, e);
    var ns := RuleCompiling.DepthsOfParts(k, scope, e);
    if p in ps {
      var j :| 0 <= j < |ps| && ps[j] == p;
      assert ns[j] in ns;
    }
  }

  // ----- The main results -----

  /** The parts in the same scope agree. */
  ghost predicate Around(k: Context, bound: Bound, depth: nat, e: Source) {
    forall p :: p in RuleCompiling.PartsOf(k, bound.Keys, e) && p.scope == bound.Keys ==> Agrees(k, bound, depth, p.e)
  }

  lemma GroupAgrees(k: Context, bound: Bound, depth: nat, e: Source, es: seq<Source>)
    requires Around(k, bound, depth, e)
    requires forall p :: p in RuleCompiling.In(bound.Keys, es) ==> p in RuleCompiling.PartsOf(k, bound.Keys, e)
    ensures AllAgree(k, bound, depth, es)
  {
    hide Agrees, RuleCompiling.PartsOf;
    var ps := RuleCompiling.In(bound.Keys, es);
    forall j | 0 <= j < |es| ensures Agrees(k, bound, depth, es[j]) {
      assert ps[j] in ps && ps[j] == RuleCompiling.Part(es[j], bound.Keys);
    }
  }

  lemma OperatorHas(k: Context, scope: Names, e: Source, ty: Type)
    requires Sources.IsOperator(e)
    ensures Has(k, scope, e, ty) <==> exists tys: seq<Type> :: OperandsHave(k, scope, e, tys) && Suits(k, e, tys, ty)
  {
    hide Suits, Sources.Operands, NameHas, LoopFits, TurnFits, SelectionFits, AllPickSome;
  }

  lemma OperatorCompiles(k: Context, bound: Bound, depth: nat, e: Source)
    requires Sources.IsOperator(e) && depth + 1 < k.maxDepth
    ensures var xs := CompileOperands(k, bound, depth + 1, e);
            Compile(k, bound, depth, e) == if xs.None? then None else Build(k, e, xs.value)
  {
    hide Build, CompileOperands;
  }

  lemma OperatorAgrees(k: Context, bound: Bound, depth: nat, e: Source)
    requires Sources.IsOperator(e) && AllAgree(k, bound, depth + 1, Sources.Operands(e)) && depth + 1 < k.maxDepth
    ensures Agrees(k, bound, depth, e)
  {
    hide AllAgree, Build, Suits, CompileOperands, ScopeOf, Sources.Operands, Compile, Has;
    var xs := CompileOperands(k, bound, depth + 1, e);
    OperatorCompiles(k, bound, depth, e);
    forall ty ensures CompilesTo(k, bound, depth, e, ty) <==> Has(k, ScopeOf(bound), e, ty) {
      OperatorHas(k, ScopeOf(bound), e, ty);
      if xs.Some? {
        BuildsIff(k, e, xs.value, ty);
        OperandsIff(k, bound, depth + 1, e, TypesIn(xs.value));
      }
      if Has(k, ScopeOf(bound), e, ty) {
        var tys: seq<Type> :| OperandsHave(k, ScopeOf(bound), e, tys) && Suits(k, e, tys, ty);
        OperandsIff(k, bound, depth + 1, e, tys);
      }
    }
  }

  /** A condition has a type exactly when it is compiled to that type, when it is nested less than the limit. */
  lemma {:induction false} AgreesUnder(k: Context, bound: Bound, depth: nat, e: Source)
    requires depth + RuleCompiling.Depth(k, bound.Keys, e) < k.maxDepth
    ensures Agrees(k, bound, depth, e)
    decreases e
  {
    hide Compile, Has, Agrees, RuleCompiling.Depth, AddAllBound, Sources.IsOperator;
    var d := depth + 1;
    var ps := RuleCompiling.PartsOf(k, bound.Keys, e);
    PartsUnder(k, bound.Keys, depth, e, RuleCompiling.Part(e, {}));
    forall p { PartsUnder(k, bound.Keys, depth, e, p); }
    forall p | p in ps && p.scope == bound.Keys ensures Agrees(k, bound, d, p.e) { AgreesUnder(k, bound, d, p.e); }
    if e.ForIdentifiers? {
      forall tys, inner | AddAllBound(bound, e.names, tys) == Some(inner) ensures Agrees(k, inner, d, e.body) {
        RuleCompiling.AddedKeys(bound, e.names, tys);
        var p := RuleCompiling.Part(e.body, inner.Keys);
        assert ps[|ps| - 1] == p;
        AgreesUnder(k, inner, d, e.body);
      }
    }
    AgreesAround(k, bound, depth, e);
  }

  lemma AgreesAround(k: Context, bound: Bound, depth: nat, e: Source)
    requires depth + 1 < k.maxDepth && Around(k, bound, depth + 1, e)
    requires e.ForIdentifiers? ==> BodyAgrees(k, bound, depth + 1, e)
    ensures Agrees(k, bound, depth, e)
  {
    hide Agrees, AllAgree, Compile, Has, BodyAgrees, PathAgrees, ScopeOf;
    var d := depth + 1;
    if Sources.IsOperator(e) {
      GroupAgrees(k, bound, d, e, Sources.Operands(e));
      OperatorAgrees(k, bound, depth, e);
    } else if IsForVariables(e) {
      GroupAgrees(k, bound, d, e, RuleCompiling.NumberOfSelection(e.selection));
      GroupAgrees(k, bound, d, e, RuleCompiling.TurnParts(e));
      ForAgrees(k, bound, depth, e);
    } else {
      match e
      case ForIdentifiers(selection, _, iter, _) =>
        GroupAgrees(k, bound, d, e, RuleCompiling.NumberOfSelection(selection));
        GroupAgrees(k, bound, d, e, RuleCompiling.PartsOfIterator(iter));
        LoopAgrees(k, bound, depth, e);
      case ForRules(selection, patterns) =>
        GroupAgrees(k, bound, d, e, RuleCompiling.NumberOfSelection(selection));
        RulesAgree(k, bound, depth, e);
      case Named(id) =>
        if id.name in bound || id.name in k.modules {
          GroupAgrees(k, bound, d, e, Arguments(id, 0));
          PathAgree(k, bound, d, id);
        }
        NameAgrees(k, bound, depth, e);
    }
  }

  lemma ForAgrees(k: Context, bound: Bound, depth: nat, e: Source)
    requires depth + 1 < k.maxDepth && IsForVariables(e)
    requires AllAgree(k, bound, depth + 1, RuleCompiling.NumberOfSelection(e.selection))
    requires AllAgree(k, bound, depth + 1, RuleCompiling.TurnParts(e))
    ensures Agrees(k, bound, depth, e)
  {
    hide CompileTurn, CompileSelection, SelectionFits, TurnFits, AllAgree, ScopeOf, VariablesOfSome, PicksSome;
    SelectionIff(k, bound, depth + 1, e.selection);
    TurnIff(k, bound, depth + 1, e);
    VariablesIff(k.variables, e.patterns);
  }

  lemma LoopAgrees(k: Context, bound: Bound, depth: nat, e: Source)
    requires depth + 1 < k.maxDepth && e.ForIdentifiers? && BodyAgrees(k, bound, depth + 1, e)
    requires AllAgree(k, bound, depth + 1, RuleCompiling.NumberOfSelection(e.selection))
    requires AllAgree(k, bound, depth + 1, RuleCompiling.PartsOfIterator(e.iter))
    ensures Agrees(k, bound, depth, e)
  {
    hide CompileLoop, LoopFits, AllAgree, BodyAgrees;
    LoopIff(k, bound, depth + 1, e);
  }

  lemma RulesAgree(k: Context, bound: Bound, depth: nat, e: Source)
    requires depth + 1 < k.maxDepth && e.ForRules?
    requires AllAgree(k, bound, depth + 1, RuleCompiling.NumberOfSelection(e.selection))
    ensures Agrees(k, bound, depth, e)
  {
    hide CompileSelection, SelectionFits, AllAgree;
    SelectionIff(k, bound, depth + 1, e.selection);
    RulesIff(k.rules, e.patterns);
  }

  lemma NameAgrees(k: Context, bound: Bound, depth: nat, e: Source)
    requires depth + 1 < k.maxDepth && e.Named?
    requires e.id.name in bound || e.id.name in k.modules ==> PathAgrees(k, bound, depth + 1, e.id)
    ensures Agrees(k, bound, depth, e)
  {
    hide CompileName, NameHas, PathAgrees;
    forall ty ensures CompilesTo(k, bound, depth, e, ty) <==> Has(k, ScopeOf(bound), e, ty) {
      NameIff(k, bound, depth + 1, e.id, ty);
    }
  }

  /** The compiler accepts a condition, with this type, exactly when it has the type and is nested less than the limit. */
  lemma Accepted(k: Context, bound: Bound, depth: nat, e: Source, ty: Type)
    ensures CompilesTo(k, bound, depth, e, ty)
            <==> Has(k, ScopeOf(bound), e, ty) && depth + RuleCompiling.Depth(k, bound.Keys, e) < k.maxDepth
  {
    hide Compile, Has, RuleCompiling.Depth;
    if Compile(k, bound, depth, e).Some? { RuleCompiling.DepthBounded(k, bound, depth, e); }
    if depth + RuleCompiling.Depth(k, bound.Keys, e) < k.maxDepth { AgreesUnder(k, bound, depth, e); }
  }

  /** `r` is a compiled condition exactly when the condition has a type and is nested less than the limit, and has its type. */
  ghost predicate Decides(k: Context, bound: Bound, depth: nat, e: Source, r: Option<Typed>) {
    forall ty :: r.Some? && r.value.ty == ty
                 <==> Has(k, ScopeOf(bound), e, ty) && depth + RuleCompiling.Depth(k, bound.Keys, e) < k.maxDepth
  }

  lemma CompileDecides(k: Context, bound: Bound, depth: nat, e: Source)
    ensures Decides(k, bound, depth, e, Compile(k, bound, depth, e))
  {
    hide Compile, Has, RuleCompiling.Depth;
    forall ty { Accepted(k, bound, depth, e, ty); }
  }

  /** An operator is refused exactly when an operand is, for a warning, or because values of the types of its operands
      make it stuck. */
  ghost predicate OperatorDecides(k: Context, e: Source, xs: Option<seq<Typed>>, r: Option<Typed>)
    requires Sources.IsOperator(e) && (xs.Some? ==> |xs.value| == |Sources.Operands(e)|)
  {
    && (r.None? <==> xs.None? || WarnedOperand(k, e, TypesIn(xs.value)) || Yields(k, e, TypesIn(xs.value), Err(Stuck)))
    && (r.Some? ==> YieldsType(k, e, TypesIn(xs.value), r.value.ty))
  }

  lemma BuildDecides(k: Context, e: Source, xs: Option<seq<Typed>>)
    requires Sources.IsOperator(e) && (xs.Some? ==> |xs.value| == |Sources.Operands(e)|)
    ensures OperatorDecides(k, e, xs, if xs.None? then None else Build(k, e, xs.value))
  {
    hide Build, WarnedOperand, Yields, YieldsType;
    if xs.Some? {
      var r := Build(k, e, xs.value);
      BuildsIff(k, e, xs.value, if r.Some? then r.value.ty else IntegerType);
    }
  }
}
