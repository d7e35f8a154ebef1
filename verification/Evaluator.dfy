/** The evaluator of conditions (`evaluator/mod.rs`, `evaluator/module.rs`): the methods that select variables and push
    bound identifiers as they go, against the function `Eval`. */
module Evaluation {
  import opened Base
  import opened Values
  import opened VarMatches
  import S = Selection
  import opened Expressions

  /** The loop over the operations of a module value, which takes its arguments one after the other. */
  method EvaluateOps(c: Scan, start: ModuleValue, ops: seq<Op>, args: seq<Value>) returns (r: Res<ModuleValue>)
    ensures r == EvalOps(c, start, ops, args)
  {
    var value, next := start, 0;
    for k := 0 to |ops|
      invariant 0 <= next <= |args|
      invariant EvalOps(c, value, ops[k..], args[next..]) == EvalOps(c, start, ops, args)
    {
      var op := ops[k];
      var n := ArgumentCount(op);
      assert ops[k..][0] == op && ops[k..][1..] == ops[k + 1..];
      if next + n > |args| { return Err(Stuck); }
      assert args[next..][..n] == args[next..next + n] && args[next..][n..] == args[next + n..];
      var v := EvaluateOp(c, value, op, args[next..next + n]);
      if v.Err? { return v; }
      value := v.v;
      next := next + n;
    }
    return Ok(value);
  }

  method EvaluateOp(c: Scan, value: ModuleValue, op: Op, args: seq<Value>) returns (r: Res<ModuleValue>)
    requires |args| == ArgumentCount(op)
    ensures r == EvalOp(c, value, op, args)
  {
    if value.MUndefined? { return Err(Undefined); }
    match op {
      case Subfield(name) =>
        if !value.Object? { return Err(Stuck); }
        if name !in value.fields { return Err(Undefined); }
        return Ok(value.fields[name]);
      case Subscript =>
        if value.Array? {
          var i := IntOf(Ok(args[0]));
          if i.Err? { return Err(i.p); }
          if !(0 <= i.v < |value.values|) { return Err(Undefined); }
          return Ok(value.values[i.v]);
        }
        if value.Dictionary? {
          var key := BytesOf(Ok(args[0]));
          if key.Err? { return Err(key.p); }
          return Lookup(value.entries, key.v);
        }
        return Err(Stuck);
      case Call(_) =>
        if !value.Function? { return Err(Stuck); }
        var result := c.call(value.id, ToModules(args));
        return if result.None? then Err(Undefined) else Ok(result.value);
    }
  }

  /** A selection that accumulates the results of the body. */
  class ForSelectionEvaluator {
    var state: S.Evaluator

    constructor (state: S.Evaluator)
      ensures this.state == state
    {
      this.state := state;
    }

    /** The verdict, if it is known whatever comes next. */
    method AddResultAndCheck(matched: bool) returns (early: Option<bool>)
      modifies this
      ensures (state, early) == S.AddResult(old(state), matched)
    {
      match state {
        case All => early := if matched then Option.None else Some(false);
        case None => early := if matched then Some(false) else Option.None;
        case Number(n) =>
          early := Option.None;
          if matched {
            var left := if n == 0 then 0 else n - 1;
            state := S.Number(left);
            if left == 0 { early := Some(true); }
          }
      }
    }

    method End(nbVarsNeeded: nat) returns (r: Result)
      ensures r == FromVerdict(S.End(state, nbVarsNeeded))
    {
      match state {
        case Number(n) => r := if nbVarsNeeded >= n then Err(VarNeeded) else Ok(Boolean(false));
        case _ => r := if nbVarsNeeded > 0 then Err(VarNeeded) else Ok(Boolean(true));
      }
    }
  }

  /** The verdict on the results from `k` on. */
  function Rest(c: Scan, ev: S.Evaluator, rs: seq<Result>, k: nat, nbVarsNeeded: nat): Result
    requires k <= |rs|
  {
    FromVerdict(S.Select(ev, TrisOf(c, rs)[k..], nbVarsNeeded))
  }

  lemma RestStep(c: Scan, ev: S.Evaluator, rs: seq<Result>, k: nat, nbVarsNeeded: nat)
    requires k < |rs|
    ensures Rest(c, ev, rs, k, nbVarsNeeded) ==
            match TriOf(c, rs[k])
            case Unknown => Rest(c, ev, rs, k + 1, nbVarsNeeded + 1)
            case Known(b) =>
              var (next, early) := S.AddResult(ev, b);
              if early.Some? then Ok(Boolean(early.value)) else Rest(c, next, rs, k + 1, nbVarsNeeded)
  {
    var ts := TrisOf(c, rs);
    assert ts[k..][0] == TriOf(c, rs[k]) && ts[k..][1..] == ts[k + 1..];
  }

  function ItemsRest(c: Scan, ev: S.Evaluator, rs: seq<Result>, bodies: seq<Result>, k: nat, nbVarsNeeded: nat): Result
    requires k <= |rs| == |bodies|
  {
    SelectItems(c, ev, rs[k..], bodies[k..], nbVarsNeeded)
  }

  lemma ItemsStep(c: Scan, ev: S.Evaluator, rs: seq<Result>, bodies: seq<Result>, k: nat, nbVarsNeeded: nat)
    requires k < |rs| == |bodies|
    ensures ItemsRest(c, ev, rs, bodies, k, nbVarsNeeded) ==
            if ItemOf(rs[k]).Err? then Err(ItemOf(rs[k]).p)
            else
              match TriOf(c, bodies[k])
              case Unknown => ItemsRest(c, ev, rs, bodies, k + 1, nbVarsNeeded + 1)
              case Known(b) =>
                var (next, early) := S.AddResult(ev, b);
                if early.Some? then Ok(Boolean(early.value)) else ItemsRest(c, next, rs, bodies, k + 1, nbVarsNeeded)
  {
    assert rs[k..][0] == rs[k] && rs[k..][1..] == rs[k + 1..];
    assert bodies[k..][0] == bodies[k] && bodies[k..][1..] == bodies[k + 1..];
  }

  lemma ItemsEnds(c: Scan, ev: S.Evaluator, rs: seq<Result>, bodies: seq<Result>, nbVarsNeeded: nat)
    requires |rs| == |bodies|
    ensures ItemsRest(c, ev, rs, bodies, 0, nbVarsNeeded) == SelectItems(c, ev, rs, bodies, nbVarsNeeded)
    ensures ItemsRest(c, ev, rs, bodies, |rs|, nbVarsNeeded) == FromVerdict(S.End(ev, nbVarsNeeded))
  {
    assert rs[0..] == rs && bodies[0..] == bodies;
  }

  /** An error of the first of two operands is the result. */
  lemma FirstErrorWins(c: Scan, env: Env, e: Expr, first: Result, second: Result)
    requires IsOperator(e) && !e.Conj? && !e.Disj? && |Operands(e)| == 2 && first.Err?
    ensures Apply(c, env, e, [first, second]) == first
  {
  }

  lemma ConnectivesUnfold(c: Scan, env: Env, e: Expr)
    requires e.Conj? || e.Disj?
    ensures var rs := EvalOperands(c, env, e);
            && |rs| == |e.es| && (forall k :: 0 <= k < |rs| ==> rs[k] == Eval(c, env, e.es[k]))
            && (e.Conj? ==> Eval(c, env, e) == Conjunction(c, rs, false))
            && (e.Disj? ==> Eval(c, env, e) == Disjunction(c, rs, false))
  {
  }

  /** One more operand of a connective. */
  lemma ConnectivesStep(c: Scan, rs: seq<Result>, k: nat, needed: bool)
    requires k <= |rs|
    ensures Conjunction(c, rs[k..], needed) ==
            if k == |rs| then if needed then Err(VarNeeded) else Ok(Boolean(true))
            else match rs[k]
              case Ok(v) => if ToBool(c, v) then Conjunction(c, rs[k + 1..], needed) else Ok(Boolean(false))
              case Err(VarNeeded) => Conjunction(c, rs[k + 1..], true)
              case Err(_) => Ok(Boolean(false))
    ensures Disjunction(c, rs[k..], needed) ==
            if k == |rs| then if needed then Err(VarNeeded) else Ok(Boolean(false))
            else match rs[k]
              case Ok(v) => if ToBool(c, v) then Ok(Boolean(true)) else Disjunction(c, rs[k + 1..], needed)
              case Err(VarNeeded) => Disjunction(c, rs[k + 1..], true)
              case Err(_) => Disjunction(c, rs[k + 1..], needed)
  {
    if k < |rs| { assert rs[k..][0] == rs[k] && rs[k..][1..] == rs[k + 1..]; }
  }

  /** The oracle of percentages rounds this one up. */
  predicate RoundsUp(c: Scan, n: i64, nbElements: nat) {
    var v := c.percentOf(n, nbElements);
    100 * (v - 1) < n * nbElements <= 100 * v
  }

  predicate Accepts(chosen: Chosen, bs: seq<bool>) {
    if chosen.Value? then chosen.r == Ok(Boolean(true)) else S.Meets(chosen.ev, bs)
  }

  /** When the percentage is rounded up, `n%` of the elements is met exactly by the results whose true ones are at least
      that part of them all. */
  lemma PercentSelects(c: Scan, n: i64, bs: seq<bool>)
    requires RoundsUp(c, n, |bs|)
    ensures Accepts(ChooseNumber(c, Ok(Integer(n)), true, |bs|), bs) <==> 100 * S.CountTrue(bs) >= n * |bs|
  {
    var v, part := c.percentOf(n, |bs|), n * |bs|;
    assert 100 * (v - 1) < part <= 100 * v;
  }

  class Evaluator {
    const scan: Scan
    const varMatches: Option<seq<seq<StringMatch>>>
    var selectedVariable: Option<nat>
    var boundStack: seq<ModuleValue>

    /** The matches of each variable are sorted. */
    ghost predicate Valid() {
      varMatches.Some? ==> forall k :: 0 <= k < |varMatches.value| ==> Sorted(varMatches.value[k])
    }

    constructor (scan: Scan, varMatches: Option<seq<seq<StringMatch>>>)
      ensures this.varMatches == varMatches
      ensures this.scan == scan && Now() == Env(None, [], varMatches)
    {
      this.scan := scan;
      this.varMatches := varMatches;
      selectedVariable := None;
      boundStack := [];
    }

    function Now(): Env
      reads this
    {
      Env(selectedVariable, boundStack, varMatches)
    }

    method EvaluateExpr(e: Expr) returns (r: Result)
      requires Valid()
      modifies this
      ensures r == Eval(scan, old(Now()), e) && Now() == old(Now())
      decreases e, 2
    {
      hide Apply, EvalOperands, EvalSelection, EvalLoop, EvalModule, EvalVariables, EvalTurns, RuleTris, SelectResults;
      match e {
        case For(selection, variables, body) =>
          var chosen := EvaluateForSelection(selection, |variables|);
          if chosen.Value? { return chosen.r; }
          var previous := selectedVariable;
          r := EvaluateForVar(chosen.ev, variables, body);
          selectedVariable := previous;
        case ForIdentifiers(selection, _, _) =>
          var chosen := EvaluateForSelection(selection, 0);
          if chosen.Value? { return chosen.r; }
          r := EvaluateForIterator(chosen.ev, e);
          if r.Err? && IsUndefined(r.p) { r := Ok(Boolean(false)); }
        case ForRules(selection, ruleSet, alreadyMatched) =>
          var chosen := EvaluateForSelection(selection, |ruleSet| + alreadyMatched);
          if chosen.Value? { return chosen.r; }
          r := EvaluateForRules(chosen.ev, ruleSet, alreadyMatched);
        case Module(use) =>
          var v := EvaluateModule(use);
          r := if v.Err? then Err(v.p) else FromModule(scan, v.v);
        case Conj(es) => r := EvaluateAnd(e);
        case Disj(es) => r := EvaluateOr(e);
        case _ => r := EvaluateOperator(e);
      }
    }

    /** The operators with at most two operands: the second is not evaluated when the first is in error. */
    method EvaluateOperator(e: Expr) returns (r: Result)
      requires IsOperator(e) && !e.Conj? && !e.Disj? && Valid()
      modifies this
      ensures r == Eval(scan, old(Now()), e) && Now() == old(Now())
      decreases e, 0
    {
      ghost var all := EvalOperands(scan, Now(), e);
      var rs: seq<Result> := [];
      if |Operands(e)| > 0 {
        var first := EvaluateExpr(Operands(e)[0]);
        rs := [first];
        if |Operands(e)| > 1 {
          if first.Err? {
            FirstErrorWins(scan, Now(), e, first, all[1]);
            assert all == [first, all[1]];
            return first;
          }
          var second := EvaluateExpr(Operands(e)[1]);
          rs := [first, second];
        }
      }
      assert rs == all;
      if e.CountInRange? {
        r := CountMatchesInRange(e.variable, rs[0], rs[1]);
      } else if e.VariableAt? {
        r := FindVariableAt(e.variable, rs[0]);
      } else if e.VariableIn? {
        r := FindVariableIn(e.variable, rs[0], rs[1]);
      } else {
        r := Apply(scan, Now(), e, rs);
      }
    }

    method CountMatchesInRange(variable: VariableIndex, from: Result, to: Result) returns (r: Result)
      requires Valid()
      ensures r == EvalCountIn(Now(), variable, from, to)
    {
      var f, t := IntOf(from), IntOf(to);
      if f.Err? { return Err(f.p); }
      if t.Err? { return Err(t.p); }
      var ms := MatchesOf(Now(), variable);
      if ms.Err? { return Err(ms.p); }
      var count := CountMatchesIn(ms.v, if f.v < 0 then 0 else f.v, if t.v < 0 then 0 else t.v);
      r := Ok(CountValue(count));
    }

    method FindVariableAt(variable: VariableIndex, offset: Result) returns (r: Result)
      requires Valid()
      ensures r == EvalVariableAt(Now(), variable, offset)
    {
      var o := IntOf(offset);
      if o.Err? { return Err(o.p); }
      if o.v < 0 { return Ok(Boolean(false)); }
      var ms := MatchesOf(Now(), variable);
      if ms.Err? { return Err(ms.p); }
      var found := FindAt(ms.v, o.v);
      r := Ok(Boolean(found));
    }

    method FindVariableIn(variable: VariableIndex, from: Result, to: Result) returns (r: Result)
      requires Valid()
      ensures r == EvalVariableIn(Now(), variable, from, to)
    {
      var f, t := IntOf(from), IntOf(to);
      if f.Err? { return Err(f.p); }
      if t.Err? { return Err(t.p); }
      if !(0 <= f.v <= t.v) { return Ok(Boolean(false)); }
      var ms := MatchesOf(Now(), variable);
      if ms.Err? { return Err(ms.p); }
      var found := FindIn(ms.v, f.v, t.v);
      r := Ok(Boolean(found));
    }

    method EvaluateAnd(e: Expr) returns (r: Result)
      requires e.Conj?
      requires Valid()
      modifies this
      ensures r == Eval(scan, old(Now()), e) && Now() == old(Now())
      decreases e, 0
    {
      hide Eval, EvalOperands, Conjunction, Disjunction;
      ConnectivesUnfold(scan, Now(), e);
      ghost var rs := EvalOperands(scan, Now(), e);
      assert rs[0..] == rs;
      var varNeeded, k := false, 0;
      while k < |e.es|
        invariant 0 <= k <= |e.es| && Now() == old(Now())
        invariant Conjunction(scan, rs, false) == Conjunction(scan, rs[k..], varNeeded)
      {
        var v := EvaluateExpr(e.es[k]);
        ConnectivesStep(scan, rs, k, varNeeded);
        match v {
          case Ok(b) => if !ToBool(scan, b) { return Ok(Boolean(false)); }
          case Err(VarNeeded) => varNeeded := true;
          case Err(_) => return Ok(Boolean(false));
        }
        k := k + 1;
      }
      ConnectivesStep(scan, rs, |rs|, varNeeded);
      r := if varNeeded then Err(VarNeeded) else Ok(Boolean(true));
    }

    method EvaluateOr(e: Expr) returns (r: Result)
      requires e.Disj?
      requires Valid()
      modifies this
      ensures r == Eval(scan, old(Now()), e) && Now() == old(Now())
      decreases e, 0
    {
      hide Eval, EvalOperands, Conjunction, Disjunction;
      ConnectivesUnfold(scan, Now(), e);
      ghost var rs := EvalOperands(scan, Now(), e);
      assert rs[0..] == rs;
      var varNeeded, k := false, 0;
      while k < |e.es|
        invariant 0 <= k <= |e.es| && Now() == old(Now())
        invariant Disjunction(scan, rs, false) == Disjunction(scan, rs[k..], varNeeded)
      {
        var v := EvaluateExpr(e.es[k]);
        ConnectivesStep(scan, rs, k, varNeeded);
        match v {
          case Ok(b) => if ToBool(scan, b) { return Ok(Boolean(true)); }
          case Err(VarNeeded) => varNeeded := true;
          case Err(_) =>
        }
        k := k + 1;
      }
      ConnectivesStep(scan, rs, |rs|, varNeeded);
      r := if varNeeded then Err(VarNeeded) else Ok(Boolean(false));
    }

    method EvaluateForSelection(selection: ForSelection, nbElements: nat) returns (r: Chosen)
      requires Valid()
      modifies this
      ensures r == EvalSelection(scan, old(Now()), selection, nbElements) && Now() == old(Now())
      decreases selection, 0
    {
      match selection {
        case SelectAny => r := Feed(S.Number(1));
        case SelectAll => r := Feed(S.All);
        case SelectNone => r := Feed(S.Evaluator.None);
        case SelectExpr(number, asPercent) =>
          var n := EvaluateExpr(number);
          r := ChooseNumber(scan, n, asPercent, nbElements);
      }
    }

    method EvaluateForVar(ev: S.Evaluator, variables: seq<nat>, body: Expr) returns (r: Result)
      requires Valid()
      modifies this
      ensures r == SelectResults(scan, ev, EvalVariables(scan, old(Now()), variables, body))
      ensures Now() == old(Now()).(selected := selectedVariable)
      decreases body, 3
    {
      ghost var rs := EvalVariables(scan, Now(), variables, body);
      var selection := new ForSelectionEvaluator(ev);
      var nbVarsNeeded := 0;
      assert TrisOf(scan, rs)[0..] == TrisOf(scan, rs);
      for k := 0 to |variables|
        invariant Now() == old(Now()).(selected := selectedVariable)
        invariant Rest(scan, selection.state, rs, k, nbVarsNeeded) == SelectResults(scan, ev, rs)
      {
        selectedVariable := Some(variables[k]);
        assert Now() == WithSelected(old(Now()), variables[k]);
        var v := EvaluateExpr(body);
        RestStep(scan, selection.state, rs, k, nbVarsNeeded);
        if v == Err(VarNeeded) {
          nbVarsNeeded := nbVarsNeeded + 1;
        } else {
          var early := selection.AddResultAndCheck(v.Ok? && ToBool(scan, v.v));
          if early.Some? { return Ok(Boolean(early.value)); }
        }
      }
      r := selection.End(nbVarsNeeded);
    }

    method EvaluateForRules(ev: S.Evaluator, ruleSet: seq<nat>, alreadyMatched: nat) returns (r: Result)
      ensures r == FromVerdict(S.Select(ev, RuleTris(scan, ruleSet, alreadyMatched), 0))
    {
      ghost var ts := RuleTris(scan, ruleSet, alreadyMatched);
      var selection := new ForSelectionEvaluator(ev);
      assert ts[0..] == ts;
      for k := 0 to alreadyMatched
        invariant S.Select(selection.state, ts[k..], 0) == S.Select(ev, ts, 0)
      {
        assert ts[k..][0] == ts[k] && ts[k..][1..] == ts[k + 1..];
        var early := selection.AddResultAndCheck(true);
        if early.Some? { return Ok(Boolean(early.value)); }
      }
      for k := 0 to |ruleSet|
        invariant S.Select(selection.state, ts[alreadyMatched + k..], 0) == S.Select(ev, ts, 0)
      {
        var j := alreadyMatched + k;
        assert ts[j..][0] == ts[j] && ts[j..][1..] == ts[j + 1..];
        var early := selection.AddResultAndCheck(ruleSet[k] < |scan.rules| && scan.rules[ruleSet[k]]);
        if early.Some? { return Ok(Boolean(early.value)); }
      }
      r := selection.End(0);
    }

    /** One turn: the values are pushed on the stack, which is truncated whatever the body gives. */
    method EvaluateTurn(values: seq<ModuleValue>, body: Expr) returns (r: Result)
      requires Valid()
      modifies this
      ensures r == Eval(scan, WithBound(old(Now()), values), body) && Now() == old(Now())
      decreases body, 3
    {
      var previous := |boundStack|;
      boundStack := boundStack + values;
      r := EvaluateExpr(body);
      boundStack := boundStack[..previous];
    }

    method EvaluateTurns(ev: S.Evaluator, turns: seq<seq<ModuleValue>>, body: Expr) returns (r: Result)
      requires Valid()
      modifies this
      ensures r == SelectResults(scan, ev, EvalTurns(scan, old(Now()), turns, body)) && Now() == old(Now())
      decreases body, 4
    {
      ghost var rs := EvalTurns(scan, Now(), turns, body);
      var selection := new ForSelectionEvaluator(ev);
      var nbVarsNeeded := 0;
      assert TrisOf(scan, rs)[0..] == TrisOf(scan, rs);
      for k := 0 to |turns|
        invariant Now() == old(Now())
        invariant Rest(scan, selection.state, rs, k, nbVarsNeeded) == SelectResults(scan, ev, rs)
      {
        var v := EvaluateTurn(turns[k], body);
        RestStep(scan, selection.state, rs, k, nbVarsNeeded);
        if v == Err(VarNeeded) {
          nbVarsNeeded := nbVarsNeeded + 1;
        } else {
          var early := selection.AddResultAndCheck(v.Ok? && ToBool(scan, v.v));
          if early.Some? { return Ok(Boolean(early.value)); }
        }
      }
      r := selection.End(nbVarsNeeded);
    }

    /** The items are evaluated one at a time, each just before its turn. */
    method EvaluateList(ev: S.Evaluator, e: Expr) returns (r: Result)
      requires e.ForIdentifiers? && e.iter.List? && Valid()
      modifies this
      ensures r == EvalLoop(scan, old(Now()), ev, e) && Now() == old(Now())
      decreases e, 0
    {
      var items, body := e.iter.items, e.body;
      ghost var rs := EvalAll(scan, Now(), items);
      ghost var bodies := EvalBodies(scan, Now(), rs, body);
      var selection := new ForSelectionEvaluator(ev);
      var nbVarsNeeded := 0;
      ItemsEnds(scan, ev, rs, bodies, 0);
      for k := 0 to |items|
        invariant Now() == old(Now())
        invariant ItemsRest(scan, selection.state, rs, bodies, k, nbVarsNeeded) == ItemsRest(scan, ev, rs, bodies, 0, 0)
      {
        ItemsStep(scan, selection.state, rs, bodies, k, nbVarsNeeded);
        var item := EvaluateExpr(items[k]);
        var bound := ItemOf(item);
        if bound.Err? { return Err(bound.p); }
        var v := EvaluateTurn([bound.v], body);
        if v == Err(VarNeeded) {
          nbVarsNeeded := nbVarsNeeded + 1;
        } else {
          var early := selection.AddResultAndCheck(v.Ok? && ToBool(scan, v.v));
          if early.Some? { return Ok(Boolean(early.value)); }
        }
      }
      ItemsEnds(scan, selection.state, rs, bodies, nbVarsNeeded);
      r := selection.End(nbVarsNeeded);
    }

    method EvaluateForIterator(ev: S.Evaluator, e: Expr) returns (r: Result)
      requires e.ForIdentifiers? && Valid()
      modifies this
      ensures r == EvalLoop(scan, old(Now()), ev, e) && Now() == old(Now())
      decreases e, 1
    {
      match e.iter {
        case ModuleIterator(use) =>
          var v := EvaluateModule(use);
          if v.Err? { return Err(v.p); }
          var turns := Bindings(v.v);
          if turns.Err? { return Err(turns.p); }
          r := EvaluateTurns(ev, turns.v, e.body);
        case Range(from, to) =>
          var first := EvaluateExpr(from);
          var f := IntOf(first);
          if f.Err? { return Err(f.p); }
          var last := EvaluateExpr(to);
          var t := IntOf(last);
          if t.Err? { return Err(t.p); }
          if f.v > t.v { return Err(Undefined); }
          r := EvaluateTurns(ev, RangeTurns(f.v, t.v), e.body);
        case List(_) => r := EvaluateList(ev, e);
      }
    }

    method EvaluateModule(use: ModuleExpr) returns (r: Res<ModuleValue>)
      requires Valid()
      modifies this
      ensures r == EvalModule(scan, old(Now()), use) && Now() == old(Now())
      decreases use, 0
    {
      var args := EvaluateArguments(use.arguments);
      if args.Err? { return Err(args.p); }
      match use.kind {
        case ModuleValueAt(i) =>
          if i >= |scan.modules| { return Err(Stuck); }
          r := EvaluateOps(scan, scan.modules[i], use.ops, args.v);
        case BoundedStack(i) =>
          if i >= |boundStack| { return Err(Stuck); }
          r := EvaluateOps(scan, boundStack[i], use.ops, args.v);
        case StaticFunction(id) =>
          if use.ops == [] || !use.ops[0].Call? { return Err(Stuck); }
          r := EvaluateOps(scan, Function(id), use.ops, args.v);
      }
    }

    /** The arguments are evaluated in turn, up to the first error. */
    method EvaluateArguments(arguments: seq<Expr>) returns (r: Res<seq<Value>>)
      requires Valid()
      modifies this
      ensures r == Collect(EvalAll(scan, old(Now()), arguments)) && Now() == old(Now())
      decreases arguments, 0
    {
      ghost var rs := EvalAll(scan, Now(), arguments);
      var values := [];
      assert rs[0..] == rs;
      assert Collect(rs).Ok? ==> values + Collect(rs).v == Collect(rs).v;
      for k := 0 to |arguments|
        invariant Now() == old(Now())
        invariant Collect(rs) == Prepend(values, Collect(rs[k..]))
      {
        assert rs[k..][0] == rs[k] && rs[k..][1..] == rs[k + 1..];
        var v := EvaluateExpr(arguments[k]);
        if v.Err? { return Err(v.p); }
        ghost var rest := Collect(rs[k + 1..]);
        if rest.Ok? { assert values + ([v.v] + rest.v) == values + [v.v] + rest.v; }
        values := values + [v.v];
      }
      assert values + [] == values;
      r := Ok(values);
    }
  }

  function Prepend(vs: seq<Value>, rest: Res<seq<Value>>): Res<seq<Value>> {
    if rest.Err? then rest else Ok(vs + rest.v)
  }

  /** `evaluate_rule`: whether the rule matches, or nothing if that depends on the matches of its variables. */
  method EvaluateRule(condition: Expr, varMatches: Option<seq<seq<StringMatch>>>, scan: Scan) returns (r: Option<bool>)
    requires varMatches.Some? ==> forall k :: 0 <= k < |varMatches.value| ==> Sorted(varMatches.value[k])
    ensures r == RuleVerdict(scan, condition, varMatches)
  {
    var evaluator := new Evaluator(scan, varMatches);
    var v := evaluator.EvaluateExpr(condition);
    match v {
      case Ok(b) => r := Some(ToBool(scan, b));
      case Err(VarNeeded) => r := None;
      case Err(_) => r := Some(false);
    }
  }
}
