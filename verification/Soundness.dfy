/** Type soundness: a compiled condition evaluates to a value of its type, or to a poison, and no evaluation inside it
    takes an arm for a mismatched type or an index out of range. */
module Soundness {
  import opened Base
  import opened Values
  import opened Types
  import opened Sources
  import opened Expressions
  import opened Compiling
  import opened VarMatches
  import S = Selection

  /** The scan provides what the scope promises: modules and external symbols of their declared types, and the results of
      the rules that can be named. */
  ghost predicate Serves(c: Scan, k: Context) {
    && (forall m :: m in k.modules ==> ServesModule(c, k.modules[m]))
    && |c.externals| == |k.externals|
    && (forall j :: 0 <= j < |k.externals| ==> TypeOf(c.externals[j]) == k.externals[j].1)
    && (forall j :: 0 <= j < |k.rules| && k.rules[j].1.Some? ==> k.rules[j].1.value < |c.rules|)
  }

  ghost predicate ServesModule(c: Scan, m: ImportedModule) {
    && (forall f :: f in m.statics ==> StaticConforms(c, m.statics[f]))
    && m.index < |c.modules|
    && Conforms(c, c.modules[m.index], ObjectType(m.dynamic))
  }

  /** The stack holds exactly the values of the bound names, of their types; variables are those of the rule. */
  ghost predicate Fits(c: Scan, k: Context, bound: Bound, run: Env) {
    && |run.stack| == |bound|
    && (forall n :: n in bound ==> bound[n].index < |run.stack| && Conforms(c, run.stack[bound[n].index], bound[n].ty))
    && (run.matches.Some? ==> |run.matches.value| == |k.variables|)
    && (run.selected.Some? ==> run.selected.value < |k.variables|)
  }

  /** The evaluation of this expression takes no arm for a mismatched type. What catches an undefined operand catches
      a mismatch as well, so the parts of loops are looked at. */
  ghost predicate Smooth(c: Scan, run: Env, e: Expr) {
    && Eval(c, run, e) != Err(Stuck)
    && ((e.For? || e.ForIdentifiers? || e.ForRules?) && e.selection.SelectExpr? ==>
          IntOf(Eval(c, run, e.selection.number)) != Err(Stuck))
    && (e.ForIdentifiers? ==> forall ev :: EvalLoop(c, run, ev, e) != Err(Stuck))
    && (e.ForRules? ==> forall j :: 0 <= j < |e.ruleSet| ==> e.ruleSet[j] < |c.rules|)
  }

  ghost predicate Covers(c: Scan, p: (Env, Expr) -> bool) {
    forall run, e :: Smooth(c, run, e) ==> p(run, e)
  }

  // ----- Operators -----

  lemma {:induction false} ConnectiveTypes(c: Scan, rs: seq<Result>, v: bool)
    ensures HasType(Conjunction(c, rs, v), BooleanType) && HasType(Disjunction(c, rs, v), BooleanType)
    decreases |rs|
  {
    if rs != [] {
      ConnectiveTypes(c, rs[1..], v);
      ConnectiveTypes(c, rs[1..], true);
    }
  }

  lemma IntOpType(op: IntOp, n: i64, m: i64)
    ensures HasType(IntOpValue(op, n, m), IntegerType)
  {
  }

  lemma MatchesInRange(k: Context, run: Env, name: string)
    requires run.matches.Some? ==> |run.matches.value| == |k.variables|
    requires run.selected.Some? ==> run.selected.value < |k.variables|
    ensures VariableNamed(k, name).Some? ==> MatchesOf(run, VariableNamed(k, name).value) != Err(Stuck)
    ensures MatchesOf(run, None) != Err(Stuck)
  {
  }

  lemma OnVariableSound(c: Scan, run: Env, e: Source, x: VariableIndex, xs: seq<Typed>, rs: seq<Result>)
    requires IsOnVariable(e) && |xs| == |rs| == |Sources.Operands(e)|
    requires MatchesOf(run, x) != Err(Stuck)
    requires forall j :: 0 <= j < |rs| ==> HasType(rs[j], IntegerType)
    ensures var r := BuildOnVariable(e, x, xs);
            && Expressions.IsOperator(r.e) && Expressions.Operands(r.e) == Exprs(xs)
            && HasType(Expressions.Apply(c, run, r.e, rs), r.ty)
  {
    assert |rs| > 0 ==> HasType(rs[0], IntegerType);
    assert |rs| > 1 ==> HasType(rs[1], IntegerType);
  }

  lemma ArithmeticSound(c: Scan, op: ArithOp, l: Result, r: Result, a: Type, b: Type)
    requires HasType(l, a) && HasType(r, b)
    ensures PrimaryType(a, b, false, false).Some? ==> HasType(Arith(c, op, l, r), PrimaryType(a, b, false, false).value)
  {
  }

  lemma ComparisonSound(c: Scan, l: Result, r: Result, a: Type, b: Type, lessThan: bool, flag: bool)
    requires HasType(l, a) && HasType(r, b)
    ensures PrimaryType(a, b, true, false).Some? ==> HasType(Cmp(c, l, r, lessThan, flag), BooleanType)
    ensures PrimaryType(a, b, true, true).Some? ==> HasType(Eq(c, l, r, flag), BooleanType)
  {
  }

  lemma PlainShape(k: Context, e: Source, xs: seq<Typed>)
    requires Sources.IsOperator(e) && !IsOnVariable(e) && |xs| == |Sources.Operands(e)|
    requires BuildPlain(k, e, xs).Some?
    ensures var r := BuildPlain(k, e, xs).value; Expressions.IsOperator(r.e) && Expressions.Operands(r.e) == Exprs(xs)
  {
  }

  lemma PlainSound(c: Scan, k: Context, run: Env, e: Source, xs: seq<Typed>, rs: seq<Result>, r: Typed)
    requires Sources.IsOperator(e) && !IsOnVariable(e) && |xs| == |rs| == |Sources.Operands(e)|
    requires BuildPlain(k, e, xs) == Some(r) && HaveTypes(rs, TypesIn(xs))
    requires Expressions.IsOperator(r.e) && |Expressions.Operands(r.e)| == |xs|
    ensures HasType(Expressions.Apply(c, run, r.e, rs), r.ty)
  {
    assert |rs| > 0 ==> HasType(rs[0], xs[0].ty);
    assert |rs| > 1 ==> HasType(rs[1], xs[1].ty);
    match e
    case Conj(_) => ConnectiveTypes(c, rs, false);
    case Disj(_) => ConnectiveTypes(c, rs, false);
    case Arithmetic(op, _, _) => ArithmeticSound(c, op, rs[0], rs[1], xs[0].ty, xs[1].ty);
    case Compare(_, _, lt, eq) => ComparisonSound(c, rs[0], rs[1], xs[0].ty, xs[1].ty, lt, eq);
    case Equals(_, _, negated) => ComparisonSound(c, rs[0], rs[1], xs[0].ty, xs[1].ty, true, negated);
    case IntArithmetic(op, _, _) => if rs[0].Ok? && rs[1].Ok? { IntOpType(op, rs[0].v.n, rs[1].v.n); }
    case _ =>
  }

  /** A compiled operator has the compiled operands, and a value of its type. */
  lemma BuildSound(c: Scan, k: Context, bound: Bound, run: Env, e: Source, xs: seq<Typed>, rs: seq<Result>)
    requires Sources.IsOperator(e) && |xs| == |rs| == |Sources.Operands(e)| && Fits(c, k, bound, run)
    requires Build(k, e, xs).Some? && HaveTypes(rs, TypesIn(xs))
    ensures var r := Build(k, e, xs).value;
            && Expressions.IsOperator(r.e) && Expressions.Operands(r.e) == Exprs(xs)
            && HasType(Expressions.Apply(c, run, r.e, rs), r.ty)
  {
    if IsOnVariable(e) {
      MatchesInRange(k, run, e.name);
      forall j | 0 <= j < |rs| ensures HasType(rs[j], IntegerType) { assert TypesIn(xs)[j] == xs[j].ty; }
      OnVariableSound(c, run, e, VariableNamed(k, e.name).value, xs, rs);
    } else {
      PlainShape(k, e, xs);
      PlainSound(c, k, run, e, xs, rs, BuildPlain(k, e, xs).value);
    }
  }

  // ----- Paths -----

  ghost predicate ConformsTo(c: Scan, v: ModuleValue, current: Current) {
    match current
    case AtValue(s) => v == OfStatic(s) && StaticConforms(c, s)
    case AtType(t) => Conforms(c, v, t)
  }

  function Flatten(xss: seq<seq<Typed>>): seq<Typed> {
    if xss == [] then [] else xss[0] + Flatten(xss[1..])
  }

  /** Each step of the path has its number of arguments. */
  predicate Fitted(path: seq<Access>, xss: seq<seq<Typed>>) {
    |xss| == |path| && forall j :: 0 <= j < |path| ==> |xss[j]| == ArgumentCount(OpOf(path[j]))
  }

  lemma {:induction false} LookupConforms(c: Scan, entries: seq<(bytes, ModuleValue)>, key: bytes, t: ModuleType)
    requires forall j :: 0 <= j < |entries| ==> Conforms(c, entries[j].1, t)
    ensures var r := Lookup(entries, key); if r.Ok? then Conforms(c, r.v, t) else r == Err(Undefined)
    decreases |entries|
  {
    if entries != [] { LookupConforms(c, entries[1..], key, t); }
  }

  lemma OpsStep(c: Scan, v: ModuleValue, op: Op, rest: seq<Op>, args: seq<Value>, more: seq<Value>)
    requires |args| == ArgumentCount(op)
    ensures EvalOps(c, v, [op] + rest, args + more) ==
            var r := EvalOp(c, v, op, args); if r.Err? then r else EvalOps(c, r.v, rest, more)
  {
    var n := ArgumentCount(op);
    assert ([op] + rest)[0] == op && ([op] + rest)[1..] == rest;
    assert (args + more)[..n] == args && (args + more)[n..] == more;
  }

  lemma CallReturns(c: Scan, id: nat, signatures: seq<seq<ModuleType>>, result: ModuleType, args: seq<Value>)
    requires Returns(c, id, signatures, result) && Callable(signatures, TypesOf(args))
    ensures var r := c.call(id, ToModules(args)); r.Some? ==> Conforms(c, r.value, result)
  {
  }

  /** A step on a value that conforms gives one that does, or nothing. */
  lemma StepSound(c: Scan, v: ModuleValue, current: Current, a: Access, args: seq<Value>, next: Current)
    requires ConformsTo(c, v, current) && StepType(current, a, TypesOf(args)) == Some(next)
    requires |args| == ArgumentCount(OpOf(a))
    ensures var r := EvalOp(c, v, OpOf(a), args); if r.Ok? then ConformsTo(c, r.v, next) else r == Err(Undefined)
    ensures next.AtValue? ==> EvalOp(c, v, OpOf(a), args) == Ok(OfStatic(next.v))
  {
    match a
    case Field(f) =>
    case Index(e) =>
      assert TypesOf(args)[0] == TypeOf(args[0]);
      if v.Dictionary? && args[0].Bytes? { LookupConforms(c, v.entries, args[0].s, next.t); }
    case Apply(_) =>
      match current {
        case AtValue(StaticFun(id, signatures, result)) => CallReturns(c, id, signatures, result, args);
        case AtType(FunctionType(signatures, result)) =>
          if v.Function? { CallReturns(c, v.id, signatures, result, args); }
      }
  }

  /** The arguments of the first step, and those of the others. */
  lemma ArgumentsSplit(xss: seq<seq<Typed>>, args: seq<Value>)
    requires xss != [] && TypesOf(args) == TypesIn(Flatten(xss))
    ensures |xss[0]| <= |args|
    ensures TypesOf(args[..|xss[0]|]) == TypesIn(xss[0]) && TypesOf(args[|xss[0]|..]) == TypesIn(Flatten(xss[1..]))
    ensures args == args[..|xss[0]|] + args[|xss[0]|..]
  {
    var n := |xss[0]|;
    var tys := TypesOf(args);
    assert |tys| == |args|;
    assert tys[..n] == TypesIn(xss[0]) && tys[n..] == TypesIn(Flatten(xss[1..]));
    assert TypesOf(args[..n]) == tys[..n] && TypesOf(args[n..]) == tys[n..];
  }

  lemma OpsTail(path: seq<Access>)
    requires path != []
    ensures Ops(path) == [OpOf(path[0])] + Ops(path[1..])
  {
  }

  /** A compiled path takes exactly its arguments. */
  lemma {:induction false} ArityOfPath(path: seq<Access>, xss: seq<seq<Typed>>)
    requires Fitted(path, xss)
    ensures Arity(Ops(path)) == |Flatten(xss)|
    decreases |path|
  {
    if path != [] {
      OpsTail(path);
      ArityOfPath(path[1..], xss[1..]);
      assert Ops(path)[1..] == Ops(path[1..]);
    }
  }

  /** It leads to a value of its type, or to an undefined one. */
  lemma {:induction false} PathSound(c: Scan, path: seq<Access>, current: Current, immediate: Option<StaticValue>,
                                     xss: seq<seq<Typed>>, v: ModuleValue, args: seq<Value>)
    requires Fitted(path, xss) && Follow(path, current, immediate, xss).Some?
    requires ConformsTo(c, v, current) && TypesOf(args) == TypesIn(Flatten(xss))
    ensures var r := EvalOps(c, v, Ops(path), args);
            if r.Ok? then ConformsTo(c, r.v, Follow(path, current, immediate, xss).value.current) else r == Err(Undefined)
    decreases |path|
  {
    if path != [] {
      var next := StepType(current, path[0], TypesIn(xss[0])).value;
      var now, more := args[..|xss[0]|], args[|xss[0]|..];
      ArgumentsSplit(xss, args);
      OpsTail(path);
      OpsStep(c, v, OpOf(path[0]), Ops(path[1..]), now, more);
      StepSound(c, v, current, path[0], now, next);
      var r := EvalOp(c, v, OpOf(path[0]), now);
      if r.Ok? {
        PathSound(c, path[1..], next, if next.AtValue? then Some(next.v) else immediate, xss[1..], r.v, more);
      }
    }
  }

  /** From a type on, the whole path is left to the scan. */
  lemma {:induction false} DynamicSteps(path: seq<Access>, t: ModuleType, immediate: Option<StaticValue>,
                                        xss: seq<seq<Typed>>)
    requires Fitted(path, xss) && Follow(path, AtType(t), immediate, xss).Some?
    ensures var p := Follow(path, AtType(t), immediate, xss).value;
            p.current.AtType? && p.immediate == immediate && p.ops == Ops(path)
    decreases |path|
  {
    if path != [] {
      var next := StepType(AtType(t), path[0], TypesIn(xss[0])).value;
      OpsTail(path);
      DynamicSteps(path[1..], next.t, immediate, xss[1..]);
    }
  }

  /** From a static value on, the path ends on a static value, or what is left to the scan starts with the call of a
      function of the module: the same value at the end. */
  lemma {:induction false} StaticSteps(c: Scan, path: seq<Access>, s: StaticValue, xss: seq<seq<Typed>>, args: seq<Value>)
    requires Fitted(path, xss) && Follow(path, AtValue(s), Some(s), xss).Some?
    requires StaticConforms(c, s) && TypesOf(args) == TypesIn(Flatten(xss))
    ensures var p := Follow(path, AtValue(s), Some(s), xss).value;
            var r := EvalOps(c, OfStatic(s), Ops(path), args);
            match p.current
            case AtValue(end) =>
              && p.immediate == Some(end) && args == [] && p.ops == []
              && StaticConforms(c, end) && r == Ok(OfStatic(end))
            case AtType(_) =>
              && p.immediate.Some? && p.immediate.value.StaticFun? && p.ops != [] && p.ops[0].Call?
              && r == EvalOps(c, Function(p.immediate.value.id), p.ops, args)
    decreases |path|
  {
    if path == [] {
      assert |TypesOf(args)| == |args|;
    } else {
      var next := StepType(AtValue(s), path[0], TypesIn(xss[0])).value;
      var p := Follow(path, AtValue(s), Some(s), xss).value;
      OpsTail(path);
      if next.AtValue? {
        var rest := Follow(path[1..], next, Some(next.v), xss[1..]).value;
        assert p.current == rest.current && p.immediate == rest.immediate && p.ops == rest.ops;
        assert xss[0] == [] && Flatten(xss) == Flatten(xss[1..]) && [] + args == args;
        StepSound(c, OfStatic(s), AtValue(s), path[0], [], next);
        OpsStep(c, OfStatic(s), OpOf(path[0]), Ops(path[1..]), [], args);
        StaticSteps(c, path[1..], next.v, xss[1..], args);
      } else {
        DynamicSteps(path[1..], next.t, Some(s), xss[1..]);
        assert p.ops == Ops(path);
      }
    }
  }

  // ----- Conditions -----

  /** An expression that evaluates to its type, and is smooth everywhere. */
  ghost predicate Safe(c: Scan, run: Env, e: Expr, ty: Type, p: (Env, Expr) -> bool) {
    HasType(Eval(c, run, e), ty) && Everywhere(c, run, e, p)
  }

  ghost predicate AllSafe(c: Scan, run: Env, xs: seq<Typed>, p: (Env, Expr) -> bool) {
    forall j :: 0 <= j < |xs| ==> Safe(c, run, xs[j].e, xs[j].ty, p)
  }

  lemma OperatorSafe(c: Scan, k: Context, bound: Bound, run: Env, e: Source, xs: seq<Typed>, p: (Env, Expr) -> bool)
    requires Sources.IsOperator(e) && |xs| == |Sources.Operands(e)| && Build(k, e, xs).Some?
    requires Fits(c, k, bound, run) && Covers(c, p) && AllSafe(c, run, xs, p)
    ensures var r := Build(k, e, xs).value; Safe(c, run, r.e, r.ty, p)
  {
    var r := Build(k, e, xs).value;
    var rs := EvalAll(c, run, Exprs(xs));
    forall j | 0 <= j < |rs| ensures HasType(rs[j], TypesIn(xs)[j]) { assert Safe(c, run, xs[j].e, xs[j].ty, p); }
    BuildSound(c, k, bound, run, e, xs, rs);
    OperatorEverywhere(c, run, r.e, xs, rs, r.ty, p);
  }

  lemma OperatorEverywhere(c: Scan, run: Env, e: Expr, xs: seq<Typed>, rs: seq<Result>, ty: Type, p: (Env, Expr) -> bool)
    requires Expressions.IsOperator(e) && Expressions.Operands(e) == Exprs(xs) && rs == EvalAll(c, run, Exprs(xs))
    requires HasType(Expressions.Apply(c, run, e, rs), ty) && Covers(c, p) && AllSafe(c, run, xs, p)
    ensures Safe(c, run, e, ty, p)
  {
    assert EvalOperands(c, run, e) == rs;
    assert Smooth(c, run, e);
    forall j | 0 <= j < |Expressions.Operands(e)| ensures Everywhere(c, run, Expressions.Operands(e)[j], p) {
      assert Safe(c, run, xs[j].e, xs[j].ty, p);
    }
  }

  /** The number of a selection is an integer. */
  ghost predicate SelectionSafe(c: Scan, run: Env, selection: ForSelection, p: (Env, Expr) -> bool) {
    selection.SelectExpr? ==> Safe(c, run, selection.number, IntegerType, p)
  }

  lemma SelectionGives(c: Scan, run: Env, selection: ForSelection, n: nat, p: (Env, Expr) -> bool)
    requires SelectionSafe(c, run, selection, p)
    ensures EverywhereInSelection(c, run, selection, p)
    ensures selection.SelectExpr? ==> IntOf(Eval(c, run, selection.number)) != Err(Stuck)
    ensures var chosen := EvalSelection(c, run, selection, n); chosen.Value? ==> HasType(chosen.r, BooleanType)
  {
  }

  lemma ForSafe(c: Scan, run: Env, selection: ForSelection, variables: seq<nat>, body: Expr, p: (Env, Expr) -> bool)
    requires Covers(c, p) && SelectionSafe(c, run, selection, p)
    requires forall j :: 0 <= j < |variables| ==> Everywhere(c, WithSelected(run, variables[j]), body, p)
    ensures Safe(c, run, Expr.For(selection, variables, body), BooleanType, p)
  {
    SelectionGives(c, run, selection, |variables|, p);
    assert Smooth(c, run, Expr.For(selection, variables, body));
  }

  lemma RulesSafe(c: Scan, run: Env, selection: ForSelection, rules: seq<nat>, n: nat, p: (Env, Expr) -> bool)
    requires Covers(c, p) && SelectionSafe(c, run, selection, p)
    requires forall j :: 0 <= j < |rules| ==> rules[j] < |c.rules|
    ensures Safe(c, run, Expr.ForRules(selection, rules, n), BooleanType, p)
  {
    SelectionGives(c, run, selection, |rules| + n, p);
    assert Smooth(c, run, Expr.ForRules(selection, rules, n));
  }

  /** The iterator is of the kind that the loop expects. */
  ghost predicate IteratorSmooth(c: Scan, run: Env, iter: ForIterator) {
    match iter
    case ModuleIterator(use) =>
      var v := EvalModule(c, run, use);
      v != Err(Stuck) && (v.Ok? ==> Bindings(v.v) != Err(Stuck))
    case Range(from, to) => IntOf(Eval(c, run, from)) != Err(Stuck) && IntOf(Eval(c, run, to)) != Err(Stuck)
    case List(items) => forall j :: 0 <= j < |items| ==> ItemOf(Eval(c, run, items[j])) != Err(Stuck)
  }

  lemma {:induction false} ItemsNotStuck(c: Scan, ev: S.Evaluator, items: seq<Result>, bodies: seq<Result>, n: nat)
    requires |items| == |bodies| && forall j :: 0 <= j < |items| ==> ItemOf(items[j]) != Err(Stuck)
    ensures var r := SelectItems(c, ev, items, bodies, n);
            r != Err(Stuck) && HasType(UndefinedIsFalse(r), BooleanType)
    decreases |items|
  {
    if items != [] && ItemOf(items[0]).Ok? {
      match TriOf(c, bodies[0])
      case Unknown => ItemsNotStuck(c, ev, items[1..], bodies[1..], n + 1);
      case Known(b) => ItemsNotStuck(c, S.AddResult(ev, b).0, items[1..], bodies[1..], n);
    }
  }

  lemma LoopNotStuck(c: Scan, run: Env, ev: S.Evaluator, e: Expr)
    requires e.ForIdentifiers? && IteratorSmooth(c, run, e.iter)
    ensures var r := EvalLoop(c, run, ev, e); r != Err(Stuck) && HasType(UndefinedIsFalse(r), BooleanType)
  {
    if e.iter.List? {
      var rs := EvalAll(c, run, e.iter.items);
      ItemsNotStuck(c, ev, rs, EvalBodies(c, run, rs, e.body), 0);
    }
  }

  lemma LoopSafe(c: Scan, run: Env, selection: ForSelection, iter: ForIterator, body: Expr, p: (Env, Expr) -> bool)
    requires Covers(c, p) && SelectionSafe(c, run, selection, p)
    requires IteratorSmooth(c, run, iter) && EverywhereInIterator(c, run, iter, p)
    requires forall turn :: IsTurn(c, run, iter, turn) ==> Everywhere(c, WithBound(run, turn), body, p)
    ensures Safe(c, run, Expr.ForIdentifiers(selection, iter, body), BooleanType, p)
  {
    var e := Expr.ForIdentifiers(selection, iter, body);
    SelectionGives(c, run, selection, 0, p);
    forall ev ensures EvalLoop(c, run, ev, e) != Err(Stuck) { LoopNotStuck(c, run, ev, e); }
    var chosen := EvalSelection(c, run, selection, 0);
    if chosen.Feed? { LoopNotStuck(c, run, chosen.ev, e); }
    assert Smooth(c, run, e);
  }

  lemma BindOneFits(c: Scan, k: Context, bound: Bound, run: Env, name: string, ty: ModuleType, v: ModuleValue)
    requires Fits(c, k, bound, run) && AddBound(bound, name, ty).Some? && Conforms(c, v, ty)
    ensures Fits(c, k, AddBound(bound, name, ty).value, WithBound(run, [v]))
  {
    var inner := AddBound(bound, name, ty).value;
    var stack := run.stack + [v];
    forall n | n in inner ensures inner[n].index < |stack| && Conforms(c, stack[inner[n].index], inner[n].ty) {
      if n != name { assert stack[bound[n].index] == run.stack[bound[n].index]; }
    }
  }

  ghost predicate AllConform(c: Scan, vs: seq<ModuleValue>, tys: seq<ModuleType>) {
    |vs| == |tys| && forall j :: 0 <= j < |vs| ==> Conforms(c, vs[j], tys[j])
  }

  lemma TailConforms(c: Scan, vs: seq<ModuleValue>, tys: seq<ModuleType>)
    requires AllConform(c, vs, tys) && vs != []
    ensures Conforms(c, vs[0], tys[0]) && AllConform(c, vs[1..], tys[1..])
  {
  }

  lemma WithBoundTwice(run: Env, turn: seq<ModuleValue>)
    requires turn != []
    ensures WithBound(WithBound(run, [turn[0]]), turn[1..]) == WithBound(run, turn)
  {
    assert run.stack + [turn[0]] + turn[1..] == run.stack + turn;
  }

  /** Binding values of their types keeps the stack in step with the names. */
  lemma {:induction false} BindFits(c: Scan, k: Context, bound: Bound, run: Env, names: seq<string>, tys: seq<ModuleType>,
                                    turn: seq<ModuleValue>)
    requires Fits(c, k, bound, run) && AddAllBound(bound, names, tys).Some? && AllConform(c, turn, tys)
    ensures Fits(c, k, AddAllBound(bound, names, tys).value, WithBound(run, turn))
    decreases |names|
  {
    if names == [] {
      assert run.stack + turn == run.stack;
      assert WithBound(run, turn) == run;
    } else {
      TailConforms(c, turn, tys);
      WithBoundTwice(run, turn);
      BindOneFits(c, k, bound, run, names[0], tys[0], turn[0]);
      BindFits(c, k, AddBound(bound, names[0], tys[0]).value, WithBound(run, [turn[0]]), names[1..], tys[1..], turn[1..]);
    }
  }

  lemma {:induction false} CollectSafe(c: Scan, run: Env, xs: seq<Typed>, p: (Env, Expr) -> bool)
    requires AllSafe(c, run, xs, p)
    ensures var r := Collect(EvalAll(c, run, Exprs(xs)));
            if r.Ok? then TypesOf(r.v) == TypesIn(xs) else r != Err(Stuck)
    decreases |xs|
  {
    if xs != [] {
      assert Safe(c, run, xs[0].e, xs[0].ty, p);
      CollectSafe(c, run, xs[1..], p);
      assert EvalAll(c, run, Exprs(xs))[1..] == EvalAll(c, run, Exprs(xs[1..]));
      var rest := Collect(EvalAll(c, run, Exprs(xs[1..])));
      if rest.Ok? { assert TypesOf(rest.v) == TypesIn(xs[1..]); }
    } else {
      assert EvalAll(c, run, Exprs(xs)) == [];
    }
  }

  lemma {:induction false} FollowArguments(path: seq<Access>, current: Current, immediate: Option<StaticValue>,
                                           xss: seq<seq<Typed>>)
    requires |xss| == |path| && Follow(path, current, immediate, xss).Some?
    ensures Follow(path, current, immediate, xss).value.arguments == Exprs(Flatten(xss))
    decreases |path|
  {
    if path != [] {
      var next := StepType(current, path[0], TypesIn(xss[0])).value;
      FollowArguments(path[1..], next, if next.AtValue? then Some(next.v) else immediate, xss[1..]);
      assert Exprs(Flatten(xss)) == Exprs(xss[0]) + Exprs(Flatten(xss[1..]));
    }
  }

  /** A module expression whose path is compiled gives a value of its type. */
  ghost predicate UseSafe(c: Scan, run: Env, use: ModuleExpr, t: ModuleType, p: (Env, Expr) -> bool) {
    EverywhereIn(c, run, use.arguments, p) && ResultConforms(c, EvalModule(c, run, use), t)
  }

  ghost predicate ResultConforms(c: Scan, v: Res<ModuleValue>, t: ModuleType) {
    if v.Ok? then Conforms(c, v.v, t) else v != Err(Stuck)
  }

  predicate StartsAt(c: Scan, run: Env, start: ModuleKind, v: ModuleValue) {
    match start
    case ModuleValueAt(i) => i < |c.modules| && c.modules[i] == v
    case BoundedStack(i) => i < |run.stack| && run.stack[i] == v
    case StaticFunction(_) => false
  }

  lemma DynamicUseSafe(c: Scan, run: Env, start: ModuleKind, v: ModuleValue, path: seq<Access>, t: ModuleType,
                       xss: seq<seq<Typed>>, p: (Env, Expr) -> bool)
    requires Fitted(path, xss) && Follow(path, AtType(t), None, xss).Some? && Conforms(c, v, t)
    requires AllSafe(c, run, Flatten(xss), p)
    requires StartsAt(c, run, start, v)
    ensures var end := Follow(path, AtType(t), None, xss).value;
            && end.current.AtType? && end.immediate.None?
            && UseSafe(c, run, ModuleExpr(start, end.arguments, end.ops), end.current.t, p)
  {
    DynamicSteps(path, t, None, xss);
    FollowArguments(path, AtType(t), None, xss);
    CollectSafe(c, run, Flatten(xss), p);
    var args := Collect(EvalAll(c, run, Exprs(Flatten(xss))));
    if args.Ok? { PathSound(c, path, AtType(t), None, xss, v, args.v); }
    ArgumentsEverywhere(c, run, Flatten(xss), p);
  }

  lemma ArgumentsEverywhere(c: Scan, run: Env, xs: seq<Typed>, p: (Env, Expr) -> bool)
    requires AllSafe(c, run, xs, p)
    ensures EverywhereIn(c, run, Exprs(xs), p)
  {
    forall j | 0 <= j < |xs| ensures Everywhere(c, run, Exprs(xs)[j], p) { assert Safe(c, run, xs[j].e, xs[j].ty, p); }
  }

  ghost predicate StaticEndsSafe(c: Scan, run: Env, end: Path, p: (Env, Expr) -> bool) {
    if end.current.AtValue? then end.immediate == Some(end.current.v) && StaticConforms(c, end.current.v)
    else
      && end.immediate.Some? && end.immediate.value.StaticFun?
      && UseSafe(c, run, ModuleExpr(StaticFunction(end.immediate.value.id), end.arguments, end.ops), end.current.t, p)
  }

  /** From a static value, the end is static, or a call of its function. */
  lemma StaticUseSafe(c: Scan, run: Env, path: seq<Access>, s: StaticValue, xss: seq<seq<Typed>>, p: (Env, Expr) -> bool)
    requires Fitted(path, xss) && Follow(path, AtValue(s), Some(s), xss).Some? && StaticConforms(c, s)
    requires AllSafe(c, run, Flatten(xss), p)
    ensures StaticEndsSafe(c, run, Follow(path, AtValue(s), Some(s), xss).value, p)
  {
    hide Follow, Everywhere, Conforms, Eval;
    FollowArguments(path, AtValue(s), Some(s), xss);
    CollectSafe(c, run, Flatten(xss), p);
    var args := Collect(EvalAll(c, run, Exprs(Flatten(xss))));
    ArgumentsEverywhere(c, run, Flatten(xss), p);
    StaticEnd(c, path, s, xss);
    if args.Ok? {
      StaticSteps(c, path, s, xss, args.v);
      PathSound(c, path, AtValue(s), Some(s), xss, OfStatic(s), args.v);
    }
  }

  /** What `StaticSteps` says that does not depend on the arguments. */
  lemma {:induction false} StaticEnd(c: Scan, path: seq<Access>, s: StaticValue, xss: seq<seq<Typed>>)
    requires Fitted(path, xss) && Follow(path, AtValue(s), Some(s), xss).Some? && StaticConforms(c, s)
    ensures var p := Follow(path, AtValue(s), Some(s), xss).value;
            if p.current.AtValue? then
              p.immediate == Some(p.current.v) && StaticConforms(c, p.current.v) && Flatten(xss) == []
            else p.immediate.Some? && p.immediate.value.StaticFun? && p.ops != [] && p.ops[0].Call?
    decreases |path|
  {
    if path != [] {
      var next := StepType(AtValue(s), path[0], TypesIn(xss[0])).value;
      if next.AtValue? {
        assert xss[0] == [];
        StaticEnd(c, path[1..], next.v, xss[1..]);
      } else {
        DynamicSteps(path[1..], next.t, Some(s), xss[1..]);
      }
    }
  }

  lemma {:induction false} FlattenSafe(c: Scan, run: Env, xss: seq<seq<Typed>>, p: (Env, Expr) -> bool)
    requires forall j :: 0 <= j < |xss| ==> AllSafe(c, run, xss[j], p)
    ensures AllSafe(c, run, Flatten(xss), p)
    decreases |xss|
  {
    if xss != [] { FlattenSafe(c, run, xss[1..], p); }
  }

  lemma {:induction false} VariablesInRange(variables: seq<string>, patterns: seq<Pattern>)
    requires VariablesOfSome(variables, patterns).Some?
    ensures forall j :: 0 <= j < |VariablesOfSome(variables, patterns).value| ==>
              VariablesOfSome(variables, patterns).value[j] < |variables|
    decreases |patterns|
  {
    if patterns != [] { VariablesInRange(variables, patterns[1..]); }
  }

  /** The rules of a set are rules that can be named. */
  lemma {:induction false} RulesInRange(rules: seq<(string, Option<nat>)>, patterns: seq<Pattern>, n: nat)
    requires RulesOf(rules, patterns).Some?
    requires forall j :: 0 <= j < |rules| && rules[j].1.Some? ==> rules[j].1.value < n
    ensures forall j :: 0 <= j < |RulesOf(rules, patterns).value| ==>
              RulesOf(rules, patterns).value[j].Some? ==> RulesOf(rules, patterns).value[j].value < n
    decreases |patterns|
  {
    if patterns != [] {
      PrefixedInRange(rules, patterns[0].name, n);
      FoundInRange(rules, patterns[0].name, n);
      RulesInRange(rules, patterns[1..], n);
      var first := SelectedRules(rules, patterns[0]);
      if patterns[0].isWildcard {
        assert first == PrefixedRules(rules, patterns[0].name);
      } else {
        assert first == [Find(rules, patterns[0].name).value];
      }
      assert RulesOf(rules, patterns).value == first + RulesOf(rules, patterns[1..]).value;
    }
  }

  lemma {:induction false} PrefixedInRange(rules: seq<(string, Option<nat>)>, prefix: string, n: nat)
    requires forall j :: 0 <= j < |rules| && rules[j].1.Some? ==> rules[j].1.value < n
    ensures forall j :: 0 <= j < |PrefixedRules(rules, prefix)| ==>
              PrefixedRules(rules, prefix)[j].Some? ==> PrefixedRules(rules, prefix)[j].value < n
    decreases |rules|
  {
    if rules != [] { PrefixedInRange(rules[1..], prefix, n); }
  }

  lemma {:induction false} FoundInRange(rules: seq<(string, Option<nat>)>, name: string, n: nat)
    requires forall j :: 0 <= j < |rules| && rules[j].1.Some? ==> rules[j].1.value < n
    ensures Find(rules, name).Some? && Find(rules, name).value.Some? ==> Find(rules, name).value.value < n
    decreases |rules|
  {
    if rules != [] { FoundInRange(rules[1..], name, n); }
  }

  lemma {:induction false} IndexesInRange(rules: seq<Option<nat>>, n: nat)
    requires forall j :: 0 <= j < |rules| && rules[j].Some? ==> rules[j].value < n
    ensures forall j :: 0 <= j < |Indexes(rules)| ==> Indexes(rules)[j] < n
    decreases |rules|
  {
    if rules != [] { IndexesInRange(rules[1..], n); }
  }

  lemma ConstSafe(c: Scan, run: Env, v: Value, p: (Env, Expr) -> bool)
    requires Covers(c, p)
    ensures Safe(c, run, Expr.Const(v), TypeOf(v), p)
  {
    assert Smooth(c, run, Expr.Const(v));
  }

  lemma ModuleSafe(c: Scan, run: Env, use: ModuleExpr, ty: Type, p: (Env, Expr) -> bool)
    requires Covers(c, p) && UseSafe(c, run, use, Scalar(ty), p)
    ensures Safe(c, run, Module(use), ty, p)
  {
    assert Smooth(c, run, Module(use));
  }

  lemma RuleSafe(c: Scan, run: Env, i: nat, p: (Env, Expr) -> bool)
    requires Covers(c, p) && i < |c.rules|
    ensures Safe(c, run, RuleResult(i), BooleanType, p)
  {
    assert Smooth(c, run, RuleResult(i));
  }

  lemma SymbolSafe(c: Scan, run: Env, i: nat, ty: Type, p: (Env, Expr) -> bool)
    requires Covers(c, p) && i < |c.externals| && TypeOf(c.externals[i]) == ty
    ensures Safe(c, run, ExternalSymbol(i), ty, p)
  {
    OperatorEverywhere(c, run, ExternalSymbol(i), [], EvalAll(c, run, Exprs([])), ty, p);
  }

  lemma IntegerResults(c: Scan, run: Env, xs: seq<Typed>, p: (Env, Expr) -> bool)
    requires AllSafe(c, run, xs, p) && AllAre(xs, IntegerType)
    ensures forall j :: 0 <= j < |xs| ==> HasType(EvalAll(c, run, Exprs(xs))[j], IntegerType)
  {
    forall j | 0 <= j < |xs| ensures HasType(EvalAll(c, run, Exprs(xs))[j], IntegerType) {
      assert Safe(c, run, xs[j].e, xs[j].ty, p);
    }
  }

  lemma SelectedSafe(c: Scan, k: Context, bound: Bound, run: Env, p: (Env, Expr) -> bool)
    requires Fits(c, k, bound, run) && Covers(c, p)
    ensures Safe(c, run, Expr.Variable(None), BooleanType, p)
  {
    MatchesInRange(k, run, "");
    OperatorEverywhere(c, run, Expr.Variable(None), [], EvalAll(c, run, Exprs([])), BooleanType, p);
  }

  lemma SelectedAtSafe(c: Scan, k: Context, bound: Bound, run: Env, x: Typed, p: (Env, Expr) -> bool)
    requires Fits(c, k, bound, run) && Covers(c, p) && AllSafe(c, run, [x], p) && x.ty.IntegerType?
    ensures Safe(c, run, Expr.VariableAt(None, x.e), BooleanType, p)
  {
    var rs := EvalAll(c, run, Exprs([x]));
    MatchesInRange(k, run, "");
    IntegerResults(c, run, [x], p);
    assert HasType(EvalVariableAt(run, None, rs[0]), BooleanType);
    OperatorEverywhere(c, run, Expr.VariableAt(None, x.e), [x], rs, BooleanType, p);
  }

  lemma InTyped(run: Env, from: Result, to: Result)
    requires HasType(from, IntegerType) && HasType(to, IntegerType) && MatchesOf(run, None) != Err(Stuck)
    ensures HasType(EvalVariableIn(run, None, from, to), BooleanType)
  {
  }

  lemma InShape(c: Scan, run: Env, x: Typed, y: Typed, rs: seq<Result>)
    requires |rs| == 2
    ensures var e := Expr.VariableIn(None, x.e, y.e);
            && Expressions.Operands(e) == Exprs([x, y])
            && Expressions.Apply(c, run, e, rs) == EvalVariableIn(run, None, rs[0], rs[1])
  {
  }

  lemma SelectedInSafe(c: Scan, k: Context, bound: Bound, run: Env, x: Typed, y: Typed, p: (Env, Expr) -> bool)
    requires Fits(c, k, bound, run) && Covers(c, p) && AllSafe(c, run, [x, y], p) && AllAre([x, y], IntegerType)
    ensures Safe(c, run, Expr.VariableIn(None, x.e, y.e), BooleanType, p)
  {
    var rs := EvalAll(c, run, Exprs([x, y]));
    MatchesInRange(k, run, "");
    IntegerResults(c, run, [x, y], p);
    InTyped(run, rs[0], rs[1]);
    InShape(c, run, x, y, rs);
    OperatorEverywhere(c, run, Expr.VariableIn(None, x.e, y.e), [x, y], rs, BooleanType, p);
  }

  /** A condition that compiles to a type evaluates, in any scan that serves its scope, to a value of that type or to a
      poison, and takes no arm for a mismatched type and no index out of range, anywhere. */
  lemma {:induction false} Sound(c: Scan, k: Context, bound: Bound, depth: nat, run: Env, e: Source, p: (Env, Expr) -> bool)
    requires Serves(c, k) && Fits(c, k, bound, run) && Covers(c, p) && Compile(k, bound, depth, e).Some?
    ensures var x := Compile(k, bound, depth, e).value; Safe(c, run, x.e, x.ty, p)
    decreases e, 2
  {
    hide Safe, Eval, Everywhere, Conforms, Fits, CompileSelection, CompileTurn, CompileLoop, CompileName, Build;
    var d := depth + 1;
    if Sources.IsOperator(e) {
      var xs := CompileOperands(k, bound, d, e).value;
      forall j | 0 <= j < |xs| ensures Safe(c, run, xs[j].e, xs[j].ty, p) {
        Sound(c, k, bound, d, run, Sources.Operands(e)[j], p);
      }
      OperatorSafe(c, k, bound, run, e, xs, p);
    } else if IsForVariables(e) {
      ForSound(c, k, bound, d, run, e, p);
    } else {
      match e
      case ForIdentifiers(_, _, _, _) => LoopSound(c, k, bound, d, run, e, p);
      case ForRules(selection, patterns) =>
        SelectionSound(c, k, bound, d, run, selection, p);
        RulesInRange(k.rules, patterns, |c.rules|);
        var rules := RulesOf(k.rules, patterns).value;
        IndexesInRange(rules, |c.rules|);
        RulesSafe(c, run, CompileSelection(k, bound, d, selection).value, Indexes(rules), CountGlobal(rules), p);
      case Named(id) => NameSound(c, k, bound, d, run, id, p);
    }
  }

  lemma {:induction false} SelectionSound(c: Scan, k: Context, bound: Bound, depth: nat, run: Env,
                                          selection: SourceSelection, p: (Env, Expr) -> bool)
    requires Serves(c, k) && Fits(c, k, bound, run) && Covers(c, p) && CompileSelection(k, bound, depth, selection).Some?
    ensures SelectionSafe(c, run, CompileSelection(k, bound, depth, selection).value, p)
    decreases selection, 0
  {
    if selection.NumberOf? { Sound(c, k, bound, depth, run, selection.number, p); }
  }

  lemma {:induction false} TurnSound(c: Scan, k: Context, bound: Bound, depth: nat, run: Env, e: Source,
                                     p: (Env, Expr) -> bool)
    requires Serves(c, k) && Fits(c, k, bound, run) && Covers(c, p)
    requires IsForVariables(e) && CompileTurn(k, bound, depth, e).Some?
    ensures Everywhere(c, run, CompileTurn(k, bound, depth, e).value, p)
    decreases e, 0
  {
    hide Compile, Eval, Everywhere, Conforms, Fits, Serves;
    match e
    case For(_, _, each) =>
      if each.Some? { Sound(c, k, bound, depth, run, each.value, p); } else { SelectedSafe(c, k, bound, run, p); }
    case ForIn(_, _, from, to) =>
      Sound(c, k, bound, depth, run, from, p);
      Sound(c, k, bound, depth, run, to, p);
      SelectedInSafe(c, k, bound, run, Compile(k, bound, depth, from).value, Compile(k, bound, depth, to).value, p);
    case ForAt(_, _, offset) =>
      Sound(c, k, bound, depth, run, offset, p);
      SelectedAtSafe(c, k, bound, run, Compile(k, bound, depth, offset).value, p);
  }

  lemma {:induction false} ForSound(c: Scan, k: Context, bound: Bound, depth: nat, run: Env, e: Source,
                                    p: (Env, Expr) -> bool)
    requires Serves(c, k) && Fits(c, k, bound, run) && Covers(c, p) && IsForVariables(e)
    requires CompileSelection(k, bound, depth, e.selection).Some? && CompileTurn(k, bound, depth, e).Some?
    requires VariablesOf(k.variables, e.patterns).Some?
    ensures Safe(c, run, Expr.For(CompileSelection(k, bound, depth, e.selection).value,
                                  VariablesOf(k.variables, e.patterns).value,
                                  CompileTurn(k, bound, depth, e).value), BooleanType, p)
    decreases e, 1
  {
    hide Compile, CompileSelection, CompileTurn, Eval, Conforms;
    var variables := VariablesOf(k.variables, e.patterns).value;
    SelectionSound(c, k, bound, depth, run, e.selection, p);
    if e.patterns != [] { VariablesInRange(k.variables, e.patterns); }
    forall j | 0 <= j < |variables|
      ensures Everywhere(c, WithSelected(run, variables[j]), CompileTurn(k, bound, depth, e).value, p)
    {
      TurnSound(c, k, bound, depth, WithSelected(run, variables[j]), e, p);
    }
    ForSafe(c, run, CompileSelection(k, bound, depth, e.selection).value, variables,
            CompileTurn(k, bound, depth, e).value, p);
  }

  lemma {:induction false} ArgumentsSound(c: Scan, k: Context, bound: Bound, depth: nat, run: Env, id: Identifier, i: nat,
                                          p: (Env, Expr) -> bool)
    requires Serves(c, k) && Fits(c, k, bound, run) && Covers(c, p)
    requires i <= |id.path| && CompileArguments(k, bound, depth, id, i).Some?
    ensures AllSafe(c, run, Flatten(CompileArguments(k, bound, depth, id, i).value), p)
    ensures Fitted(id.path[i..], CompileArguments(k, bound, depth, id, i).value)
    decreases id, 0
  {
    ArgumentsAre(k, bound, depth, id, i);
    var xss := CompileArguments(k, bound, depth, id, i).value;
    forall j | 0 <= j < |xss| ensures AllSafe(c, run, xss[j], p) && |xss[j]| == ArgumentCount(OpOf(id.path[i..][j])) {
      assert CompileStep(k, bound, depth, id, i + j) == Some(xss[j]);
      forall m | 0 <= m < |xss[j]| ensures Safe(c, run, xss[j][m].e, xss[j][m].ty, p) {
        Sound(c, k, bound, depth, run, StepArguments(id, i + j)[m], p);
      }
    }
    FlattenSafe(c, run, xss, p);
  }

  /** A compiled path, from a bound value, a module or a static value. */
  ghost predicate PathSafe(c: Scan, run: Env, use: Use, p: (Env, Expr) -> bool) {
    if use.start.None? then StaticEndsSafe(c, run, use.path, p)
    else
      && use.path.current.AtType? && use.path.immediate.None?
      && UseSafe(c, run, ModuleExpr(use.start.value, use.path.arguments, use.path.ops), use.path.current.t, p)
  }

  lemma {:induction false} UseSound(c: Scan, k: Context, bound: Bound, depth: nat, run: Env, id: Identifier,
                                    p: (Env, Expr) -> bool)
    requires Serves(c, k) && Fits(c, k, bound, run) && Covers(c, p) && CompileUse(k, bound, depth, id).Some?
    ensures PathSafe(c, run, CompileUse(k, bound, depth, id).value, p)
    decreases id, 1
  {
    hide Compile, Eval, Everywhere, Conforms, StaticConforms, Follow;
    if id.name in bound {
      var b := bound[id.name];
      ArgumentsSound(c, k, bound, depth, run, id, 0, p);
      DynamicUseSafe(c, run, BoundedStack(b.index), run.stack[b.index], id.path[0..], b.ty,
                     CompileArguments(k, bound, depth, id, 0).value, p);
    } else {
      var m := k.modules[id.name];
      assert ServesModule(c, m);
      var field := id.path[0].field;
      if field in m.statics {
        ArgumentsSound(c, k, bound, depth, run, id, 1, p);
        StaticUseSafe(c, run, id.path[1..], m.statics[field], CompileArguments(k, bound, depth, id, 1).value, p);
      } else {
        ArgumentsSound(c, k, bound, depth, run, id, 0, p);
        DynamicUseSafe(c, run, ModuleValueAt(m.index), c.modules[m.index], id.path[0..], ObjectType(m.dynamic),
                       CompileArguments(k, bound, depth, id, 0).value, p);
      }
    }
  }

  lemma IntoExpressionSafe(c: Scan, run: Env, use: Use, p: (Env, Expr) -> bool)
    requires Covers(c, p) && PathSafe(c, run, use, p) && IntoExpression(use).Some?
    ensures var x := IntoExpression(use).value; Safe(c, run, x.e, x.ty, p)
  {
    var path := use.path;
    if path.current.AtValue? {
      ConstSafe(c, run, path.current.v.v, p);
    } else if use.start.None? {
      ModuleSafe(c, run, ModuleExpr(StaticFunction(path.immediate.value.id), path.arguments, path.ops),
                 path.current.t.ty, p);
    } else {
      ModuleSafe(c, run, ModuleExpr(use.start.value, path.arguments, path.ops), path.current.t.ty, p);
    }
  }

  lemma {:induction false} NameSound(c: Scan, k: Context, bound: Bound, depth: nat, run: Env, id: Identifier,
                                     p: (Env, Expr) -> bool)
    requires Serves(c, k) && Fits(c, k, bound, run) && Covers(c, p) && CompileName(k, bound, depth, id).Some?
    ensures var x := CompileName(k, bound, depth, id).value; Safe(c, run, x.e, x.ty, p)
    decreases id, 2
  {
    if id.name in bound || id.name in k.modules {
      UseSound(c, k, bound, depth, run, id, p);
      IntoExpressionSafe(c, run, CompileUse(k, bound, depth, id).value, p);
    } else {
      var rule := Find(k.rules, id.name);
      FoundInRange(k.rules, id.name, |c.rules|);
      if rule.Some? {
        if rule.value.Some? { RuleSafe(c, run, rule.value.value, p); } else { ConstSafe(c, run, Boolean(true), p); }
      } else {
        var i := IndexOf(Names(k.externals), id.name).value;
        SymbolSafe(c, run, i, k.externals[i].1, p);
      }
    }
  }

  /** The iterator runs, and each turn binds values of the types that it announces. */
  ghost predicate TurnsConform(c: Scan, run: Env, turning: Turning) {
    forall turn :: IsTurn(c, run, turning.iter, turn) ==> AllConform(c, turn, turning.tys)
  }

  lemma ModuleIteratorSafe(c: Scan, run: Env, use: Use, p: (Env, Expr) -> bool)
    requires PathSafe(c, run, use, p) && IntoIterator(use).Some?
    ensures var turning := IntoIterator(use).value;
            && IteratorSmooth(c, run, turning.iter) && EverywhereInIterator(c, run, turning.iter, p)
            && TurnsConform(c, run, turning)
  {
    var turning := IntoIterator(use).value;
    forall turn | IsTurn(c, run, turning.iter, turn) ensures AllConform(c, turn, turning.tys) {
      var v := EvalModule(c, run, turning.iter.use).v;
      var j :| 0 <= j < |Bindings(v).v| && Bindings(v).v[j] == turn;
    }
  }

  lemma ListSafe(c: Scan, run: Env, xs: seq<Typed>, ty: Type, p: (Env, Expr) -> bool)
    requires AllSafe(c, run, xs, p) && AllAre(xs, ty) && (ty.IntegerType? || ty.BytesType?)
    ensures IteratorSmooth(c, run, List(Exprs(xs))) && EverywhereInIterator(c, run, List(Exprs(xs)), p)
    ensures TurnsConform(c, run, Turning(List(Exprs(xs)), [Scalar(ty)]))
  {
    forall j | 0 <= j < |xs| ensures HasType(Eval(c, run, Exprs(xs)[j]), ty) { assert Safe(c, run, xs[j].e, xs[j].ty, p); }
    ArgumentsEverywhere(c, run, xs, p);
  }

  lemma RangeSafe(c: Scan, run: Env, x: Typed, y: Typed, p: (Env, Expr) -> bool)
    requires Safe(c, run, x.e, IntegerType, p) && Safe(c, run, y.e, IntegerType, p)
    ensures IteratorSmooth(c, run, Range(x.e, y.e)) && EverywhereInIterator(c, run, Range(x.e, y.e), p)
    ensures TurnsConform(c, run, Turning(Range(x.e, y.e), [Scalar(IntegerType)]))
  {
    forall turn | IsTurn(c, run, Range(x.e, y.e), turn) ensures AllConform(c, turn, [Scalar(IntegerType)]) {
      var f, t := IntOf(Eval(c, run, x.e)).v, IntOf(Eval(c, run, y.e)).v;
      var j :| 0 <= j < |RangeTurns(f, t)| && RangeTurns(f, t)[j] == turn;
    }
  }

  lemma {:induction false} IteratorSound(c: Scan, k: Context, bound: Bound, depth: nat, run: Env, iter: SourceIterator,
                                         p: (Env, Expr) -> bool)
    requires Serves(c, k) && Fits(c, k, bound, run) && Covers(c, p) && CompileIterator(k, bound, depth, iter).Some?
    ensures var turning := CompileIterator(k, bound, depth, iter).value;
            && IteratorSmooth(c, run, turning.iter) && EverywhereInIterator(c, run, turning.iter, p)
            && TurnsConform(c, run, turning)
    decreases iter, 0
  {
    hide Compile, CompileUse, Eval, Everywhere, Conforms, Fits, Serves, Safe;
    match iter
    case Iterable(id) =>
      UseSound(c, k, bound, depth, run, id, p);
      ModuleIteratorSafe(c, run, CompileUse(k, bound, depth, id).value, p);
    case Between(from, to) =>
      Sound(c, k, bound, depth, run, from, p);
      Sound(c, k, bound, depth, run, to, p);
      var x, y := Compile(k, bound, depth, from).value, Compile(k, bound, depth, to).value;
      assert AllAre([x, y], IntegerType) && [x, y][0] == x && [x, y][1] == y;
      RangeSafe(c, run, x, y, p);
    case Listed(items) =>
      var xs := CompileAll(k, bound, depth, items).value;
      forall j | 0 <= j < |xs| ensures Safe(c, run, xs[j].e, xs[j].ty, p) {
        Sound(c, k, bound, depth, run, items[j], p);
      }
      ListSafe(c, run, xs, ListType(xs).value, p);
  }

  lemma {:induction false} LoopSound(c: Scan, k: Context, bound: Bound, depth: nat, run: Env, e: Source,
                                     p: (Env, Expr) -> bool)
    requires Serves(c, k) && Fits(c, k, bound, run) && Covers(c, p)
    requires e.ForIdentifiers? && CompileLoop(k, bound, depth, e).Some?
    ensures var x := CompileLoop(k, bound, depth, e).value; Safe(c, run, x.e, x.ty, p)
    decreases e, 1
  {
    var turning := CompileIterator(k, bound, depth, e.iter).value;
    var inner := AddAllBound(bound, e.names, turning.tys).value;
    var body := Compile(k, inner, depth, e.body).value;
    SelectionSound(c, k, bound, depth, run, e.selection, p);
    IteratorSound(c, k, bound, depth, run, e.iter, p);
    forall turn | IsTurn(c, run, turning.iter, turn) ensures Everywhere(c, WithBound(run, turn), body.e, p) {
      BindFits(c, k, bound, run, e.names, turning.tys, turn);
      Sound(c, k, inner, depth, WithBound(run, turn), e.body, p);
    }
    LoopSafe(c, run, CompileSelection(k, bound, depth, e.selection).value, turning.iter, body.e, p);
  }

  /** The condition of a rule, which starts with no bound name, is well typed at run time. */
  lemma RuleSound(c: Scan, k: Context, e: Source, matches: Option<seq<seq<StringMatch>>>)
    requires Serves(c, k) && Compile(k, map[], 0, e).Some? && (matches.Some? ==> |matches.value| == |k.variables|)
    ensures var x, run := Compile(k, map[], 0, e).value, Env(None, [], matches);
            && HasType(Eval(c, run, x.e), x.ty)
            && Everywhere(c, run, x.e, (run, e) => Smooth(c, run, e))
  {
    Sound(c, k, map[], 0, Env(None, [], matches), e, (run, e) => Smooth(c, run, e));
  }
}
