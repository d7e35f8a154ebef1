/** The compilation of conditions (`compiler/expression.rs`, `compiler/module.rs`), as a function of the scope: the names
    bound so far, and the depth in the condition. */
module Compiling {
  import opened Base
  import opened Values
  import opened Types
  import opened Sources
  import opened Expressions

  datatype Typed = Typed(e: Expr, ty: Type)

  /** The type of a bound identifier, and its index on the stack. */
  datatype BoundName = BoundName(ty: ModuleType, index: nat)

  type Bound = map<string, BoundName>

  function AllSome<T>(xs: seq<Option<T>>): (r: Option<seq<T>>)
    ensures r.Some? <==> forall j :: 0 <= j < |xs| ==> xs[j].Some?
    ensures r.Some? ==> |r.value| == |xs| && forall j :: 0 <= j < |xs| ==> r.value[j] == xs[j].value
  {
    if xs == [] then Some([])
    else
      var rest := AllSome(xs[1..]);
      if xs[0].None? || rest.None? then None else Some([xs[0].value] + rest.value)
  }

  function Exprs(xs: seq<Typed>): (es: seq<Expr>)
    ensures |es| == |xs| && forall j :: 0 <= j < |xs| ==> es[j] == xs[j].e
  {
    seq(|xs|, j requires 0 <= j < |xs| => xs[j].e)
  }

  function TypesIn(xs: seq<Typed>): (tys: seq<Type>)
    ensures |tys| == |xs| && forall j :: 0 <= j < |xs| ==> tys[j] == xs[j].ty
  {
    seq(|xs|, j requires 0 <= j < |xs| => xs[j].ty)
  }

  // ----- Operators -----

  /** `to_bool_expr`: bytes used as a boolean give a warning, which may be an error. */
  predicate BoolOk(k: Context, ty: Type) {
    !(k.failOnWarnings && ty.BytesType?)
  }

  predicate AllAre(xs: seq<Typed>, ty: Type) {
    forall j :: 0 <= j < |xs| ==> xs[j].ty == ty
  }

  function When(b: bool, x: Typed): Option<Typed> {
    if b then Some(x) else None
  }

  /** `compile_primary_op`: the type of an operation on two operands, if their types are compatible. */
  function PrimaryType(a: Type, b: Type, stringAllowed: bool, boolAllowed: bool): Option<Type> {
    match (a, b)
    case (IntegerType, IntegerType) => Some(IntegerType)
    case (FloatType, FloatType) => Some(FloatType)
    case (FloatType, IntegerType) => Some(FloatType)
    case (IntegerType, FloatType) => Some(FloatType)
    case (BytesType, BytesType) => if stringAllowed then Some(BytesType) else None
    case (BooleanType, BooleanType) => if boolAllowed then Some(BooleanType) else None
    case _ => None
  }

  /** The compiled operator and its type, from its compiled operands. */
  function Build(k: Context, e: Source, xs: seq<Typed>): Option<Typed>
    requires Sources.IsOperator(e) && |xs| == |Sources.Operands(e)|
  {
    if IsOnVariable(e) then
      var x := VariableNamed(k, e.name);
      if x.None? then None else When(AllAre(xs, IntegerType), BuildOnVariable(e, x.value, xs))
    else BuildPlain(k, e, xs)
  }

  function BuildPlain(k: Context, e: Source, xs: seq<Typed>): Option<Typed>
    requires Sources.IsOperator(e) && !IsOnVariable(e) && |xs| == |Sources.Operands(e)|
  {
    match e
    case Const(v) => Some(Typed(Expr.Const(v), TypeOf(v)))
    case Filesize => Some(Typed(Expr.Filesize, IntegerType))
    case Entrypoint => Some(Typed(Expr.Entrypoint, IntegerType))
    case ReadInteger(ty, _) => When(AllAre(xs, IntegerType), Typed(Expr.ReadInteger(ty, xs[0].e), IntegerType))
    case Negate(_) =>
      if xs[0].ty.FloatType? then Some(Typed(Expr.Negate(xs[0].e), FloatType))
      else When(AllAre(xs, IntegerType), Typed(Expr.Negate(xs[0].e), IntegerType))
    case Arithmetic(op, _, _) =>
      var ty := PrimaryType(xs[0].ty, xs[1].ty, false, false);
      if ty.None? then None else Some(Typed(Expr.Arithmetic(op, xs[0].e, xs[1].e), ty.value))
    case IntArithmetic(op, _, _) =>
      When(AllAre(xs, IntegerType), Typed(Expr.IntArithmetic(op, xs[0].e, xs[1].e), IntegerType))
    case BitwiseNot(_) => When(AllAre(xs, IntegerType), Typed(Expr.BitwiseNot(xs[0].e), IntegerType))
    case Conj(_) =>
      When(forall j :: 0 <= j < |xs| ==> BoolOk(k, xs[j].ty), Typed(Expr.Conj(Exprs(xs)), BooleanType))
    case Disj(_) =>
      When(forall j :: 0 <= j < |xs| ==> BoolOk(k, xs[j].ty), Typed(Expr.Disj(Exprs(xs)), BooleanType))
    case Negation(_) => When(BoolOk(k, xs[0].ty), Typed(Expr.Negation(xs[0].e), BooleanType))
    case Compare(_, _, lessThan, canBeEqual) =>
      When(PrimaryType(xs[0].ty, xs[1].ty, true, false).Some?,
           Typed(Expr.Compare(xs[0].e, xs[1].e, lessThan, canBeEqual), BooleanType))
    case Equals(_, _, negated) =>
      When(PrimaryType(xs[0].ty, xs[1].ty, true, true).Some?,
           Typed(Expr.Equals(xs[0].e, xs[1].e, negated), BooleanType))
    case StringOperation(op, _, _, ci) =>
      When(AllAre(xs, BytesType), Typed(Expr.StringOperation(op, xs[0].e, xs[1].e, ci), BooleanType))
    case MatchesRe(_, regex) => When(AllAre(xs, BytesType), Typed(Expr.MatchesRe(xs[0].e, regex), BooleanType))
    case IsDefined(_) => Some(Typed(Expr.IsDefined(xs[0].e), BooleanType))
  }

  predicate IsOnVariable(e: Source) {
    e.Count? || e.CountInRange? || e.Offset? || e.Length? || e.Variable? || e.VariableAt? || e.VariableIn?
  }

  function BuildOnVariable(e: Source, x: VariableIndex, xs: seq<Typed>): Typed
    requires IsOnVariable(e) && |xs| == |Sources.Operands(e)|
  {
    match e
    case Count(_) => Typed(Expr.Count(x), IntegerType)
    case CountInRange(_, _, _) => Typed(Expr.CountInRange(x, xs[0].e, xs[1].e), IntegerType)
    case Offset(_, _) => Typed(Expr.Offset(x, xs[0].e), IntegerType)
    case Length(_, _) => Typed(Expr.Length(x, xs[0].e), IntegerType)
    case Variable(_) => Typed(Expr.Variable(x), BooleanType)
    case VariableAt(_, _) => Typed(Expr.VariableAt(x, xs[0].e), BooleanType)
    case VariableIn(_, _, _) => Typed(Expr.VariableIn(x, xs[0].e, xs[1].e), BooleanType)
  }

  // ----- Bound identifiers -----

  /** `add_bounded_identifier`: the next index on the stack. The name must not be bound already. */
  function AddBound(bound: Bound, name: string, ty: ModuleType): Option<Bound> {
    if name in bound then None else Some(bound[name := BoundName(ty, |bound|)])
  }

  function AddAllBound(bound: Bound, names: seq<string>, tys: seq<ModuleType>): Option<Bound>
    decreases names
  {
    if |names| != |tys| then None
    else if names == [] then Some(bound)
    else
      var first := AddBound(bound, names[0], tys[0]);
      if first.None? then None else AddAllBound(first.value, names[1..], tys[1..])
  }

  // ----- Paths -----

  /** Where a path has got: a static value, or the type that the value will have. */
  datatype Current = AtValue(v: StaticValue) | AtType(t: ModuleType)

  /** `last_immediate_value` is the last static value reached; the arguments and operations are left to the scan. */
  datatype Path = Path(current: Current, immediate: Option<StaticValue>, arguments: seq<Expr>, ops: seq<Op>)

  function StepType(current: Current, a: Access, args: seq<Type>): Option<Current> {
    match a
    case Field(f) =>
      (match current
       case AtValue(StaticObject(fields)) => if f in fields then Some(AtValue(fields[f])) else None
       case AtType(ObjectType(fields)) => if f in fields then Some(AtType(fields[f])) else None
       case _ => None)
    case Index(_) =>
      (match current
       case AtType(ArrayType(item)) => if args == [IntegerType] then Some(AtType(item)) else None
       case AtType(DictionaryType(value)) => if args == [BytesType] then Some(AtType(value)) else None
       case _ => None)
    case Apply(_) =>
      (match current
       case AtValue(StaticFun(_, signatures, result)) => if Callable(signatures, args) then Some(AtType(result)) else None
       case AtType(FunctionType(signatures, result)) => if Callable(signatures, args) then Some(AtType(result)) else None
       case _ => None)
  }

  /** A subfield of a static value is taken at once; the rest is left to the scan. */
  function StepOps(next: Current, a: Access): seq<Op> {
    if a.Field? && next.AtValue? then [] else [OpOf(a)]
  }

  /** The steps of a path, whose arguments are compiled (`add_operation`). */
  function Follow(path: seq<Access>, current: Current, immediate: Option<StaticValue>, xss: seq<seq<Typed>>): Option<Path>
    requires |xss| == |path|
    decreases path
  {
    if path == [] then Some(Path(current, immediate, [], []))
    else
      var next := StepType(current, path[0], TypesIn(xss[0]));
      if next.None? then None
      else
        var rest := Follow(path[1..], next.value, if next.value.AtValue? then Some(next.value.v) else immediate, xss[1..]);
        if rest.None? then None
        else Some(rest.value.(arguments := Exprs(xss[0]) + rest.value.arguments,
                              ops := StepOps(next.value, path[0]) + rest.value.ops))
  }

  function CompileStep(k: Context, bound: Bound, depth: nat, id: Identifier, i: nat): (r: Option<seq<Typed>>)
    requires i < |id.path|
    ensures r.Some? ==> |r.value| == ArgumentCount(OpOf(id.path[i])) == |StepArguments(id, i)|
    ensures r.Some? ==> forall j :: 0 <= j < |r.value| ==>
              Compile(k, bound, depth, StepArguments(id, i)[j]) == Some(r.value[j])
    decreases id, 0
  {
    var es := StepArguments(id, i);
    AllSome(seq(|es|, j requires 0 <= j < |es| => Compile(k, bound, depth, es[j])))
  }

  /** The arguments of each step of a path, from the `i`th on. */
  function CompileArguments(k: Context, bound: Bound, depth: nat, id: Identifier, i: nat): (r: Option<seq<seq<Typed>>>)
    requires i <= |id.path|
    ensures r.Some? ==> |r.value| == |id.path| - i
    decreases id, 1
  {
    AllSome(seq(|id.path| - i, j requires 0 <= j < |id.path| - i => CompileStep(k, bound, depth, id, i + j)))
  }

  lemma ArgumentsAre(k: Context, bound: Bound, depth: nat, id: Identifier, i: nat)
    requires i <= |id.path|
    ensures var r := CompileArguments(k, bound, depth, id, i);
            r.Some? ==> forall j :: 0 <= j < |r.value| ==> CompileStep(k, bound, depth, id, i + j) == Some(r.value[j])
  {
    hide Compile, CompileStep, StepArguments, OpOf, ArgumentCount;
    var all := seq(|id.path| - i, j requires 0 <= j < |id.path| - i => CompileStep(k, bound, depth, id, i + j));
    var r := CompileArguments(k, bound, depth, id, i);
    assert r == AllSome(all);
    if r.Some? {
      forall j | 0 <= j < |r.value| ensures CompileStep(k, bound, depth, id, i + j) == Some(r.value[j]) {
        assert all[j] == CompileStep(k, bound, depth, id, i + j);
      }
    }
  }

  function CompilePath(k: Context, bound: Bound, depth: nat, id: Identifier, i: nat, current: Current,
                       immediate: Option<StaticValue>): Option<Path>
    requires i <= |id.path|
    decreases id, 2
  {
    var xss := CompileArguments(k, bound, depth, id, i);
    if xss.None? then None else Follow(id.path[i..], current, immediate, xss.value)
  }

  /** The value on which a path starts when it is not static. */
  datatype Use = Use(start: Option<ModuleKind>, path: Path)

  /** `compile_bounded_identifier_use` and `compile_identifier` */
  function CompileUse(k: Context, bound: Bound, depth: nat, id: Identifier): Option<Use>
    decreases id, 3
  {
    if id.name in bound then
      var p := CompilePath(k, bound, depth, id, 0, AtType(bound[id.name].ty), None);
      if p.None? then None else Some(Use(Some(BoundedStack(bound[id.name].index)), p.value))
    else if id.name !in k.modules || id.path == [] || !id.path[0].Field? then None
    else
      var m := k.modules[id.name];
      var field := id.path[0].field;
      if field in m.statics then
        var p := CompilePath(k, bound, depth, id, 1, AtValue(m.statics[field]), Some(m.statics[field]));
        if p.None? then None else Some(Use(None, p.value))
      else
        var p := CompilePath(k, bound, depth, id, 0, AtType(ObjectType(m.dynamic)), None);
        if p.None? then None else Some(Use(Some(ModuleValueAt(m.index)), p.value))
  }

  function IntoType(current: Current): Option<ModuleType> {
    match current
    case AtValue(StaticScalar(v)) => Some(Scalar(TypeOf(v)))
    case AtValue(_) => None
    case AtType(t) => Some(t)
  }

  /** `into_expression` */
  function IntoExpression(use: Use): Option<Typed> {
    var p := use.path;
    var ty := IntoType(p.current);
    if ty.None? || !ty.value.Scalar? || ty.value.ty.RegexType? then None
    else
      match p.immediate
      case Some(StaticScalar(v)) => Some(Typed(Expr.Const(v), ty.value.ty))
      case Some(StaticObject(_)) => None
      case Some(StaticFun(f, _, _)) => Some(Typed(Module(ModuleExpr(StaticFunction(f), p.arguments, p.ops)), ty.value.ty))
      case None =>
        if use.start.None? then None
        else Some(Typed(Module(ModuleExpr(use.start.value, p.arguments, p.ops)), ty.value.ty))
  }

  /** What an iterator binds at each turn. */
  datatype Turning = Turning(iter: ForIterator, tys: seq<ModuleType>)

  /** `into_iterator_expression` */
  function IntoIterator(use: Use): Option<Turning> {
    var ty := IntoType(use.path.current);
    if ty.None? || use.start.None? then None
    else
      var e := ModuleExpr(use.start.value, use.path.arguments, use.path.ops);
      match ty.value
      case ArrayType(item) => Some(Turning(ModuleIterator(e), [item]))
      case DictionaryType(value) => Some(Turning(ModuleIterator(e), [Scalar(BytesType), value]))
      case _ => None
  }

  // ----- Conditions -----

  function CompileSelection(k: Context, bound: Bound, depth: nat, selection: SourceSelection): Option<ForSelection>
    decreases selection, 0
  {
    match selection
    case AnyOf => Some(SelectAny)
    case AllOf => Some(SelectAll)
    case NoneOf => Some(SelectNone)
    case NumberOf(number, asPercent) =>
      var x := Compile(k, bound, depth, number);
      if x.None? || !x.value.ty.IntegerType? then None else Some(SelectExpr(x.value.e, asPercent))
  }

  /** The body of a `for` on variables. That of `in` and `at` is made of the bounds, on the variable selected. */
  function CompileTurn(k: Context, bound: Bound, depth: nat, e: Source): Option<Expr>
    requires IsForVariables(e)
    decreases e, 0
  {
    match e
    case For(_, _, each) =>
      if each.None? then Some(Expr.Variable(None))
      else
        var x := Compile(k, bound, depth, each.value);
        if x.None? || !BoolOk(k, x.value.ty) then None else Some(x.value.e)
    case ForIn(_, _, from, to) =>
      var f, t := Compile(k, bound, depth, from), Compile(k, bound, depth, to);
      if f.None? || t.None? || !AllAre([f.value, t.value], IntegerType) then None
      else Some(Expr.VariableIn(None, f.value.e, t.value.e))
    case ForAt(_, _, offset) =>
      var o := Compile(k, bound, depth, offset);
      if o.None? || !o.value.ty.IntegerType? then None else Some(Expr.VariableAt(None, o.value.e))
  }

  function CompileAll(k: Context, bound: Bound, depth: nat, es: seq<Source>): (r: Option<seq<Typed>>)
    ensures r.Some? ==> |r.value| == |es| && forall j :: 0 <= j < |es| ==> Compile(k, bound, depth, es[j]) == Some(r.value[j])
    decreases es, 0
  {
    AllSome(seq(|es|, j requires 0 <= j < |es| => Compile(k, bound, depth, es[j])))
  }

  /** All the items of a list have the type of the first, which is integer or bytes. */
  function ListType(xs: seq<Typed>): Option<Type> {
    if xs == [] then Some(IntegerType)
    else if (xs[0].ty.IntegerType? || xs[0].ty.BytesType?) && AllAre(xs, xs[0].ty) then Some(xs[0].ty)
    else None
  }

  function CompileIterator(k: Context, bound: Bound, depth: nat, iter: SourceIterator): Option<Turning>
    decreases iter, 0
  {
    match iter
    case Iterable(id) =>
      var use := CompileUse(k, bound, depth, id);
      if use.None? then None else IntoIterator(use.value)
    case Between(from, to) =>
      var f, t := Compile(k, bound, depth, from), Compile(k, bound, depth, to);
      if f.None? || t.None? || !AllAre([f.value, t.value], IntegerType) then None
      else Some(Turning(Range(f.value.e, t.value.e), [Scalar(IntegerType)]))
    case Listed(items) =>
      var xs := CompileAll(k, bound, depth, items);
      if xs.None? then None
      else
        var ty := ListType(xs.value);
        if ty.None? then None else Some(Turning(List(Exprs(xs.value)), [Scalar(ty.value)]))
  }

  /** `compile_rule_set`: the indexes of the rules, and the number of global ones. */
  function Indexes(rules: seq<Option<nat>>): seq<nat> {
    if rules == [] then []
    else (if rules[0].Some? then [rules[0].value] else []) + Indexes(rules[1..])
  }

  function CountGlobal(rules: seq<Option<nat>>): nat {
    if rules == [] then 0 else (if rules[0].None? then 1 else 0) + CountGlobal(rules[1..])
  }

  function CompileOperands(k: Context, bound: Bound, depth: nat, e: Source): (r: Option<seq<Typed>>)
    ensures r.Some? ==> |r.value| == |Sources.Operands(e)|
    ensures r.Some? ==> forall j :: 0 <= j < |r.value| ==>
              Compile(k, bound, depth, Sources.Operands(e)[j]) == Some(r.value[j])
    decreases e, 0
  {
    var es := Sources.Operands(e);
    AllSome(seq(|es|, j requires 0 <= j < |es| => Compile(k, bound, depth, es[j])))
  }

  /** `compile_expression`. The depth counts the conditions that enclose this one. */
  function Compile(k: Context, bound: Bound, depth: nat, e: Source): Option<Typed>
    decreases e, 2
  {
    var d := depth + 1;
    if d >= k.maxDepth then None
    else if Sources.IsOperator(e) then
      var xs := CompileOperands(k, bound, d, e);
      if xs.None? then None else Build(k, e, xs.value)
    else if IsForVariables(e) then
      var selection, variables, turn :=
        CompileSelection(k, bound, d, e.selection), VariablesOf(k.variables, e.patterns), CompileTurn(k, bound, d, e);
      if selection.None? || variables.None? || turn.None? then None
      else Some(Typed(Expr.For(selection.value, variables.value, turn.value), BooleanType))
    else
      match e
      case ForIdentifiers(_, _, _, _) => CompileLoop(k, bound, d, e)
      case ForRules(selection, patterns) =>
        var s, rules := CompileSelection(k, bound, d, selection), RulesOf(k.rules, patterns);
        if s.None? || rules.None? then None
        else Some(Typed(Expr.ForRules(s.value, Indexes(rules.value), CountGlobal(rules.value)), BooleanType))
      case Named(id) => CompileName(k, bound, d, id)
  }

  function CompileLoop(k: Context, bound: Bound, depth: nat, e: Source): Option<Typed>
    requires e.ForIdentifiers?
    decreases e, 1
  {
    var selection, turning := CompileSelection(k, bound, depth, e.selection), CompileIterator(k, bound, depth, e.iter);
    if selection.None? || turning.None? then None
    else
      var inner := AddAllBound(bound, e.names, turning.value.tys);
      if inner.None? then None
      else
        var body := Compile(k, inner.value, depth, e.body);
        if body.None? || !BoolOk(k, body.value.ty) then None
        else Some(Typed(Expr.ForIdentifiers(selection.value, turning.value.iter, body.value.e), BooleanType))
  }

  /** `compile_identifier` */
  function CompileName(k: Context, bound: Bound, depth: nat, id: Identifier): Option<Typed>
    decreases id, 4
  {
    if id.name in bound || id.name in k.modules then
      var use := CompileUse(k, bound, depth, id);
      if use.None? then None else IntoExpression(use.value)
    else
      var rule := Find(k.rules, id.name);
      if rule.Some? then
        if id.path != [] then None
        else if rule.value.Some? then Some(Typed(RuleResult(rule.value.value), BooleanType))
        else Some(Typed(Expr.Const(Boolean(true)), BooleanType))
      else
        var symbol := IndexOf(Names(k.externals), id.name);
        if symbol.None? then None else Some(Typed(ExternalSymbol(symbol.value), k.externals[symbol.value].1))
  }
}
