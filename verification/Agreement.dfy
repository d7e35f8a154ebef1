/** The two passes agree: what the pass without the matches of the variables decides, the full pass decides alike. */
module Agreement {
  import opened Base
  import opened Values
  import opened VarMatches
  import S = Selection
  import opened Expressions

  /** The need for matches may become anything; any other result stays. */
  predicate Below<T(==)>(x: Res<T>, y: Res<T>) {
    x == Err(VarNeeded) || x == y
  }

  predicate AllBelow(xs: seq<Result>, ys: seq<Result>) {
    |xs| == |ys| && forall k :: 0 <= k < |xs| ==> Below(xs[k], ys[k])
  }

  predicate ChosenBelow(x: Chosen, y: Chosen) {
    x == Value(Err(VarNeeded)) || x == y
  }

  // ----- Operators are monotone -----

  lemma {:induction false} ConjunctionBelow(c: Scan, xs: seq<Result>, ys: seq<Result>, v: bool, w: bool)
    requires AllBelow(xs, ys) && (w ==> v)
    ensures Below(Conjunction(c, xs, v), Conjunction(c, ys, w))
    decreases |xs|
  {
    if xs != [] {
      var v' := v || xs[0] == Err(VarNeeded);
      var w' := w || ys[0] == Err(VarNeeded);
      ConjunctionBelow(c, xs[1..], ys[1..], v', w');
      ConjunctionNeverTrue(c, xs[1..]);
    }
  }

  /** Once an operand needed the matches, a conjunction can only be false. */
  lemma {:induction false} ConjunctionNeverTrue(c: Scan, xs: seq<Result>)
    ensures Conjunction(c, xs, true) == Err(VarNeeded) || Conjunction(c, xs, true) == Ok(Boolean(false))
    decreases |xs|
  {
    if xs != [] { ConjunctionNeverTrue(c, xs[1..]); }
  }

  lemma {:induction false} DisjunctionBelow(c: Scan, xs: seq<Result>, ys: seq<Result>, v: bool, w: bool)
    requires AllBelow(xs, ys) && (w ==> v)
    ensures Below(Disjunction(c, xs, v), Disjunction(c, ys, w))
    decreases |xs|
  {
    if xs != [] {
      DisjunctionBelow(c, xs[1..], ys[1..], v || xs[0] == Err(VarNeeded), w || ys[0] == Err(VarNeeded));
      DisjunctionNeverFalse(c, xs[1..]);
    }
  }

  lemma {:induction false} DisjunctionNeverFalse(c: Scan, xs: seq<Result>)
    ensures Disjunction(c, xs, true) == Err(VarNeeded) || Disjunction(c, xs, true) == Ok(Boolean(true))
    decreases |xs|
  {
    if xs != [] { DisjunctionNeverFalse(c, xs[1..]); }
  }

  lemma {:induction false} CollectBelow(xs: seq<Result>, ys: seq<Result>)
    requires AllBelow(xs, ys)
    ensures Below(Collect(xs), Collect(ys))
    decreases |xs|
  {
    if xs != [] { CollectBelow(xs[1..], ys[1..]); }
  }

  lemma SelectResultsBelow(c: Scan, ev: S.Evaluator, xs: seq<Result>, ys: seq<Result>)
    requires S.Started(ev) && AllBelow(xs, ys)
    ensures Below(SelectResults(c, ev, xs), SelectResults(c, ev, ys))
  {
    S.SelectMonotone(ev, TrisOf(c, xs), TrisOf(c, ys));
  }

  /** A selection never starts with nothing to reach. */
  lemma SelectionStarts(c: Scan, env: Env, selection: ForSelection, n: nat)
    ensures var chosen := EvalSelection(c, env, selection, n); chosen.Feed? ==> S.Started(chosen.ev)
  {
  }

  // ----- Lists of items -----

  /** The loop over the items is not ended by an undefined item while the verdict still depends on the matches. Only a
      threshold that the results still unknown could reach is at stake. */
  predicate ItemsSettle(c: Scan, ev: S.Evaluator, items: seq<Result>, bodies: seq<Result>, nbVarsNeeded: nat)
    requires |items| == |bodies|
    decreases items
  {
    if items == [] then true
    else
      var item := ItemOf(items[0]);
      if item.Err? then IsUndefined(item.p) ==> !(ev.Number? && ev.n <= nbVarsNeeded)
      else
        match TriOf(c, bodies[0])
        case Unknown => ItemsSettle(c, ev, items[1..], bodies[1..], nbVarsNeeded + 1)
        case Known(b) =>
          var (next, result) := S.AddResult(ev, b);
          result.Some? || ItemsSettle(c, next, items[1..], bodies[1..], nbVarsNeeded)
  }

  /** The verdict of a loop over items, seen from the whole expression. */
  function Items(c: Scan, ev: S.Evaluator, items: seq<Result>, bodies: seq<Result>, nbVarsNeeded: nat): Result
    requires |items| == |bodies|
  {
    UndefinedIsFalse(SelectItems(c, ev, items, bodies, nbVarsNeeded))
  }

  /** While a result is unknown, `All` and `None` can only fail or wait, and a threshold within reach can only succeed
      or wait. */
  lemma {:induction false} ItemsWait(c: Scan, ev: S.Evaluator, items: seq<Result>, bodies: seq<Result>, u: nat)
    requires |items| == |bodies| && ItemsSettle(c, ev, items, bodies, u)
    requires u > 0 && (ev.Number? ==> 0 < ev.n <= u)
    ensures Items(c, ev, items, bodies, u) == Err(VarNeeded) || Items(c, ev, items, bodies, u) == Ok(Boolean(ev.Number?))
    decreases |items|
  {
    if items != [] && ItemOf(items[0]).Ok? {
      match TriOf(c, bodies[0])
      case Unknown => ItemsWait(c, ev, items[1..], bodies[1..], u + 1);
      case Known(b) =>
        var (next, result) := S.AddResult(ev, b);
        if result.None? { ItemsWait(c, next, items[1..], bodies[1..], u); }
    }
  }

  /** The evaluator of the full pass, when `u` results were unknown to the other pass: the threshold may be lower. */
  predicate Ahead(ev: S.Evaluator, full: S.Evaluator, u: nat) {
    if ev.Number? then full.Number? && 0 < full.n <= ev.n <= full.n + u else full == ev
  }

  predicate BodiesBelow(items: seq<Result>, xs: seq<Result>, ys: seq<Result>) {
    |items| == |xs| == |ys| && forall k :: 0 <= k < |xs| && ItemOf(items[k]).Ok? ==> Below(xs[k], ys[k])
  }

  predicate NoneNeeded(rs: seq<Result>) {
    forall k :: 0 <= k < |rs| ==> rs[k] != Err(VarNeeded)
  }

  lemma {:induction false} ItemsBelow(c: Scan, ev: S.Evaluator, full: S.Evaluator, items: seq<Result>, bodies: seq<Result>,
                                      items': seq<Result>, bodies': seq<Result>, u: nat)
    requires AllBelow(items, items') && BodiesBelow(items, bodies, bodies')
    requires forall k :: 0 <= k < |items'| && ItemOf(items'[k]).Ok? ==> bodies'[k] != Err(VarNeeded)
    requires ItemsSettle(c, ev, items, bodies, u) && Ahead(ev, full, u)
    ensures Below(Items(c, ev, items, bodies, u), Items(c, full, items', bodies', 0))
    decreases |items|
  {
    if items != [] && ItemOf(items[0]).Ok? {
      var (full', done) := S.AddResult(full, TriOf(c, bodies'[0]).b);
      match TriOf(c, bodies[0])
      case Unknown =>
        if done.Some? {
          ItemsWait(c, ev, items[1..], bodies[1..], u + 1);
        } else {
          ItemsBelow(c, ev, full', items[1..], bodies[1..], items'[1..], bodies'[1..], u + 1);
        }
      case Known(b) =>
        var (next, result) := S.AddResult(ev, b);
        if result.None? {
          if done.Some? {
            ItemsWait(c, next, items[1..], bodies[1..], u);
          } else {
            ItemsBelow(c, next, full', items[1..], bodies[1..], items'[1..], bodies'[1..], u);
          }
        }
    }
  }

  // ----- The full pass always decides -----

  lemma {:induction false} ConnectivesDecide(c: Scan, rs: seq<Result>)
    requires NoneNeeded(rs)
    ensures Conjunction(c, rs, false) != Err(VarNeeded) && Disjunction(c, rs, false) != Err(VarNeeded)
    ensures Collect(rs) != Err(VarNeeded)
    decreases |rs|
  {
    if rs != [] { ConnectivesDecide(c, rs[1..]); }
  }

  lemma {:induction false} KnownCount(ts: seq<S.Tri>)
    requires forall k :: 0 <= k < |ts| ==> ts[k].Known?
    ensures S.CountOf(ts, S.Unknown) == 0
    decreases |ts|
  {
    if ts != [] { KnownCount(ts[1..]); }
  }

  lemma SelectDecides(ev: S.Evaluator, ts: seq<S.Tri>)
    requires S.Started(ev) && forall k :: 0 <= k < |ts| ==> ts[k].Known?
    ensures S.Select(ev, ts, 0).Decided?
  {
    S.SelectByCounts(ev, ts, 0);
    KnownCount(ts);
  }

  lemma SelectResultsDecide(c: Scan, ev: S.Evaluator, rs: seq<Result>)
    requires S.Started(ev) && NoneNeeded(rs)
    ensures SelectResults(c, ev, rs) != Err(VarNeeded)
  {
    SelectDecides(ev, TrisOf(c, rs));
  }

  lemma {:induction false} SelectItemsDecide(c: Scan, ev: S.Evaluator, items: seq<Result>, bodies: seq<Result>)
    requires S.Started(ev) && |items| == |bodies| && NoneNeeded(items)
    requires forall k :: 0 <= k < |items| && ItemOf(items[k]).Ok? ==> bodies[k] != Err(VarNeeded)
    ensures SelectItems(c, ev, items, bodies, 0) != Err(VarNeeded)
    decreases |items|
  {
    if items != [] && ItemOf(items[0]).Ok? {
      var (next, result) := S.AddResult(ev, TriOf(c, bodies[0]).b);
      if result.None? { SelectItemsDecide(c, next, items[1..], bodies[1..]); }
    }
  }

  lemma {:induction false} OpsDecide(c: Scan, value: ModuleValue, ops: seq<Op>, args: seq<Value>)
    ensures EvalOps(c, value, ops, args) != Err(VarNeeded)
    decreases |ops|
  {
    if ops != [] {
      var n := ArgumentCount(ops[0]);
      if n <= |args| {
        if value.Dictionary? && ops[0].Subscript? && args[0].Bytes? { LookupDecides(value.entries, args[0].s); }
        var r := EvalOp(c, value, ops[0], args[..n]);
        if r.Ok? { OpsDecide(c, r.v, ops[1..], args[n..]); }
      }
    }
  }

  lemma {:induction false} LookupDecides(entries: seq<(bytes, ModuleValue)>, key: bytes)
    ensures Lookup(entries, key) != Err(VarNeeded)
    decreases |entries|
  {
    if entries != [] { LookupDecides(entries[1..], key); }
  }

  predicate OnVariable(e: Expr) {
    e.Count? || e.CountInRange? || e.Offset? || e.Length? || e.Variable? || e.VariableAt? || e.VariableIn?
  }

  lemma OnVariableDecides(c: Scan, env: Env, e: Expr, rs: seq<Result>)
    requires OnVariable(e) && env.matches.Some? && |rs| == |Operands(e)| && NoneNeeded(rs)
    ensures Apply(c, env, e, rs) != Err(VarNeeded)
  {
  }

  predicate OnNumbers(e: Expr) {
    e.Negate? || e.Arithmetic? || e.IntArithmetic? || e.BitwiseNot? || e.Compare? || e.Equals?
  }

  lemma OnNumbersDecides(c: Scan, env: Env, e: Expr, rs: seq<Result>)
    requires OnNumbers(e) && |rs| == |Operands(e)| && NoneNeeded(rs)
    ensures Apply(c, env, e, rs) != Err(VarNeeded)
  {
  }

  lemma ApplyDecides(c: Scan, env: Env, e: Expr, rs: seq<Result>)
    requires IsOperator(e) && env.matches.Some? && |rs| == |Operands(e)| && NoneNeeded(rs)
    ensures Apply(c, env, e, rs) != Err(VarNeeded)
  {
    if OnVariable(e) {
      OnVariableDecides(c, env, e, rs);
    } else if OnNumbers(e) {
      OnNumbersDecides(c, env, e, rs);
    } else {
      ConnectivesDecide(c, rs);
    }
  }

  /** With the matches of the variables, no condition asks for them. */
  lemma {:induction false} FullPassDecides(c: Scan, env: Env, e: Expr)
    requires env.matches.Some?
    ensures Eval(c, env, e) != Err(VarNeeded)
    decreases e, 1
  {
    if IsOperator(e) {
      forall k | 0 <= k < |Operands(e)| ensures Eval(c, env, Operands(e)[k]) != Err(VarNeeded) {
        FullPassDecides(c, env, Operands(e)[k]);
      }
      ApplyDecides(c, env, e, EvalOperands(c, env, e));
    } else {
      match e
      case For(selection, variables, body) =>
        SelectionDecides(c, env, selection, |variables|);
        forall k | 0 <= k < |variables| ensures Eval(c, WithSelected(env, variables[k]), body) != Err(VarNeeded) {
          FullPassDecides(c, WithSelected(env, variables[k]), body);
        }
        var chosen := EvalSelection(c, env, selection, |variables|);
        if chosen.Feed? { SelectResultsDecide(c, chosen.ev, EvalVariables(c, env, variables, body)); }
      case ForIdentifiers(selection, _, _) =>
        SelectionDecides(c, env, selection, 0);
        var chosen := EvalSelection(c, env, selection, 0);
        if chosen.Feed? { LoopDecides(c, env, chosen.ev, e); }
      case ForRules(selection, ruleSet, n) =>
        SelectionDecides(c, env, selection, |ruleSet| + n);
        var chosen := EvalSelection(c, env, selection, |ruleSet| + n);
        if chosen.Feed? { SelectDecides(chosen.ev, RuleTris(c, ruleSet, n)); }
      case Module(use) => ModuleDecides(c, env, use);
    }
  }

  lemma {:induction false} AllDecide(c: Scan, env: Env, es: seq<Expr>)
    requires env.matches.Some?
    ensures NoneNeeded(EvalAll(c, env, es))
    ensures Conjunction(c, EvalAll(c, env, es), false) != Err(VarNeeded)
    ensures Disjunction(c, EvalAll(c, env, es), false) != Err(VarNeeded)
    ensures Collect(EvalAll(c, env, es)) != Err(VarNeeded)
    decreases es, 0
  {
    forall k | 0 <= k < |es| ensures Eval(c, env, es[k]) != Err(VarNeeded) { FullPassDecides(c, env, es[k]); }
    ConnectivesDecide(c, EvalAll(c, env, es));
  }

  lemma {:induction false} SelectionDecides(c: Scan, env: Env, selection: ForSelection, n: nat)
    requires env.matches.Some?
    ensures EvalSelection(c, env, selection, n) != Value(Err(VarNeeded))
    ensures var chosen := EvalSelection(c, env, selection, n); chosen.Feed? ==> S.Started(chosen.ev)
    decreases selection, 0
  {
    if selection.SelectExpr? { FullPassDecides(c, env, selection.number); }
  }

  lemma {:induction false} ModuleDecides(c: Scan, env: Env, use: ModuleExpr)
    requires env.matches.Some?
    ensures EvalModule(c, env, use) != Err(VarNeeded)
    decreases use, 0
  {
    AllDecide(c, env, use.arguments);
    var args := Collect(EvalAll(c, env, use.arguments));
    if args.Ok? {
      match use.kind
      case ModuleValueAt(i) => if i < |c.modules| { OpsDecide(c, c.modules[i], use.ops, args.v); }
      case BoundedStack(i) => if i < |env.stack| { OpsDecide(c, env.stack[i], use.ops, args.v); }
      case StaticFunction(id) => OpsDecide(c, Function(id), use.ops, args.v);
    }
  }

  lemma {:induction false} TurnsDecide(c: Scan, env: Env, ev: S.Evaluator, turns: seq<seq<ModuleValue>>, body: Expr)
    requires env.matches.Some? && S.Started(ev)
    ensures SelectResults(c, ev, EvalTurns(c, env, turns, body)) != Err(VarNeeded)
    decreases body, 2
  {
    forall k | 0 <= k < |turns| ensures Eval(c, WithBound(env, turns[k]), body) != Err(VarNeeded) {
      FullPassDecides(c, WithBound(env, turns[k]), body);
    }
    SelectResultsDecide(c, ev, EvalTurns(c, env, turns, body));
  }

  lemma {:induction false} BodiesDecide(c: Scan, env: Env, items: seq<Result>, body: Expr)
    requires env.matches.Some?
    ensures forall k :: 0 <= k < |items| && ItemOf(items[k]).Ok? ==> EvalBodies(c, env, items, body)[k] != Err(VarNeeded)
    decreases body, 2
  {
    forall k | 0 <= k < |items| && ItemOf(items[k]).Ok?
      ensures EvalBodies(c, env, items, body)[k] != Err(VarNeeded)
    {
      FullPassDecides(c, WithBound(env, [ItemOf(items[k]).v]), body);
    }
  }

  lemma {:induction false} LoopDecides(c: Scan, env: Env, ev: S.Evaluator, e: Expr)
    requires env.matches.Some? && e.ForIdentifiers? && S.Started(ev)
    ensures EvalLoop(c, env, ev, e) != Err(VarNeeded)
    decreases e, 0
  {
    match e.iter
    case ModuleIterator(use) =>
      ModuleDecides(c, env, use);
      var v := EvalModule(c, env, use);
      if v.Ok? && Bindings(v.v).Ok? { TurnsDecide(c, env, ev, Bindings(v.v).v, e.body); }
    case Range(from, to) =>
      FullPassDecides(c, env, from);
      FullPassDecides(c, env, to);
      var f, t := IntOf(Eval(c, env, from)), IntOf(Eval(c, env, to));
      if f.Ok? && t.Ok? && f.v <= t.v { TurnsDecide(c, env, ev, RangeTurns(f.v, t.v), e.body); }
    case List(items) =>
      AllDecide(c, env, items);
      var rs := EvalAll(c, env, items);
      BodiesDecide(c, env, rs, e.body);
      SelectItemsDecide(c, ev, rs, EvalBodies(c, env, rs, e.body));
  }

  // ----- What the pass without matches decides -----

  function Full(env: Env, ms: seq<seq<StringMatch>>): Env {
    env.(matches := Some(ms))
  }

  /** The scan of the full pass: in fragmented memory, the entry point is found between the two passes. */
  function Later(c: Scan, ep: Option<nat>): Scan {
    c.(entrypoint := ep)
  }

  /** What a condition sees of the entry point. */
  function SeenEntrypoint(c: Scan): Result {
    if c.entrypoint.Some? then ToI64(c.entrypoint.value) else Err(Undefined)
  }

  lemma {:induction false} LaterConnectives(c: Scan, ep: Option<nat>, rs: seq<Result>, v: bool)
    ensures Conjunction(Later(c, ep), rs, v) == Conjunction(c, rs, v)
    ensures Disjunction(Later(c, ep), rs, v) == Disjunction(c, rs, v)
    decreases |rs|
  {
    if rs != [] {
      LaterConnectives(c, ep, rs[1..], v);
      LaterConnectives(c, ep, rs[1..], true);
    }
  }

  lemma {:induction false} LaterOps(c: Scan, ep: Option<nat>, v: ModuleValue, ops: seq<Op>, args: seq<Value>)
    ensures EvalOps(Later(c, ep), v, ops, args) == EvalOps(c, v, ops, args)
    decreases |ops|
  {
    if ops != [] && ArgumentCount(ops[0]) <= |args| {
      var n := ArgumentCount(ops[0]);
      var r := EvalOp(c, v, ops[0], args[..n]);
      assert EvalOp(Later(c, ep), v, ops[0], args[..n]) == r;
      if r.Ok? { LaterOps(c, ep, r.v, ops[1..], args[n..]); }
    }
  }

  lemma LaterSelect(c: Scan, ep: Option<nat>, ev: S.Evaluator, rs: seq<Result>)
    ensures SelectResults(Later(c, ep), ev, rs) == SelectResults(c, ev, rs)
  {
    assert TrisOf(Later(c, ep), rs) == TrisOf(c, rs);
  }

  lemma LaterRules(c: Scan, ep: Option<nat>, ruleSet: seq<nat>, n: nat)
    ensures RuleTris(Later(c, ep), ruleSet, n) == RuleTris(c, ruleSet, n)
  {
  }

  lemma {:induction false} LaterItems(c: Scan, ep: Option<nat>, ev: S.Evaluator, items: seq<Result>, bodies: seq<Result>,
                                      n: nat)
    requires |items| == |bodies|
    ensures SelectItems(Later(c, ep), ev, items, bodies, n) == SelectItems(c, ev, items, bodies, n)
    decreases |items|
  {
    if items != [] && ItemOf(items[0]).Ok? {
      assert TriOf(Later(c, ep), bodies[0]) == TriOf(c, bodies[0]);
      match TriOf(c, bodies[0])
      case Unknown => LaterItems(c, ep, ev, items[1..], bodies[1..], n + 1);
      case Known(b) => LaterItems(c, ep, S.AddResult(ev, b).0, items[1..], bodies[1..], n);
    }
  }

  /** An operator other than `entrypoint` does not see the entry point. */
  lemma LaterApply(c: Scan, ep: Option<nat>, env: Env, e: Expr, rs: seq<Result>)
    requires IsOperator(e) && |rs| == |Operands(e)|
    requires e.Entrypoint? ==> SeenEntrypoint(c) == SeenEntrypoint(Later(c, ep))
    ensures Apply(Later(c, ep), env, e, rs) == Apply(c, env, e, rs)
  {
    match e
    case Conj(_) => LaterConnectives(c, ep, rs, false);
    case Disj(_) => LaterConnectives(c, ep, rs, false);
    case _ =>
  }

  lemma ApplyBelow(c: Scan, ep: Option<nat>, env: Env, ms: seq<seq<StringMatch>>, e: Expr, rs: seq<Result>,
                   rs': seq<Result>)
    requires IsOperator(e) && env.matches.None? && |rs| == |Operands(e)| && AllBelow(rs, rs')
    requires e.Entrypoint? ==> SeenEntrypoint(c) == SeenEntrypoint(Later(c, ep))
    ensures Below(Apply(c, env, e, rs), Apply(Later(c, ep), Full(env, ms), e, rs'))
  {
    LaterApply(c, ep, Full(env, ms), e, rs');
    hide Later, SeenEntrypoint;
    match e
    case Conj(_) => ConjunctionBelow(c, rs, rs', false, false);
    case Disj(_) => DisjunctionBelow(c, rs, rs', false, false);
    case _ =>
  }

  /** A loop over a list of items is not ended by an undefined item while its verdict still depends on the matches. */
  predicate Settles(c: Scan, env: Env, e: Expr) {
    e.ForIdentifiers? && e.iter.List? ==>
      var chosen := EvalSelection(c, env, e.selection, 0);
      var items := EvalAll(c, env, e.iter.items);
      chosen.Feed? ==> ItemsSettle(c, chosen.ev, items, EvalBodies(c, env, items, e.body), 0)
  }

  /** No item of the list is undefined. */
  predicate ItemsDefined(c: Scan, env: Env, e: Expr) {
    e.ForIdentifiers? && e.iter.List? ==>
      var items := EvalAll(c, env, e.iter.items);
      forall k :: 0 <= k < |items| ==> ItemOf(items[k]).Ok? || ItemOf(items[k]).p.VarNeeded?
  }

  /** No item of the list is undefined, and an entry point is seen alike later. */
  predicate Steady(c: Scan, ep: Option<nat>, env: Env, e: Expr) {
    ItemsDefined(c, env, e) && (e.Entrypoint? ==> SeenEntrypoint(c) == SeenEntrypoint(Later(c, ep)))
  }

  lemma {:induction false} DefinedSettle(c: Scan, ev: S.Evaluator, items: seq<Result>, bodies: seq<Result>, u: nat)
    requires |items| == |bodies|
    requires forall k :: 0 <= k < |items| ==> ItemOf(items[k]).Ok? || ItemOf(items[k]).p.VarNeeded?
    ensures ItemsSettle(c, ev, items, bodies, u)
    decreases |items|
  {
    if items != [] && ItemOf(items[0]).Ok? {
      match TriOf(c, bodies[0])
      case Unknown => DefinedSettle(c, ev, items[1..], bodies[1..], u + 1);
      case Known(b) => DefinedSettle(c, S.AddResult(ev, b).0, items[1..], bodies[1..], u);
    }
  }

  /** The lists of the expression settle, and it is no entry point that is seen otherwise later. */
  predicate Stays(c: Scan, ep: Option<nat>, env: Env, e: Expr) {
    Settles(c, env, e) && (e.Entrypoint? ==> SeenEntrypoint(c) == SeenEntrypoint(Later(c, ep)))
  }

  /** What the pass without matches decides stays decided alike whatever the matches turn out to be. */
  lemma {:induction false} NoScanBelow(c: Scan, ep: Option<nat>, env: Env, ms: seq<seq<StringMatch>>, e: Expr,
                                       p: (Env, Expr) -> bool)
    requires env.matches.None? && Everywhere(c, env, e, p)
    requires forall env, e :: p(env, e) ==> Stays(c, ep, env, e)
    ensures Below(Eval(c, env, e), Eval(Later(c, ep), Full(env, ms), e))
    decreases e, 1
  {
    if IsOperator(e) {
      forall k | 0 <= k < |Operands(e)|
        ensures Below(Eval(c, env, Operands(e)[k]), Eval(Later(c, ep), Full(env, ms), Operands(e)[k]))
      {
        NoScanBelow(c, ep, env, ms, Operands(e)[k], p);
      }
      ApplyBelow(c, ep, env, ms, e, EvalOperands(c, env, e), EvalOperands(Later(c, ep), Full(env, ms), e));
    } else {
      match e
      case For(selection, variables, body) =>
        SelectionBelow(c, ep, env, ms, selection, |variables|, p);
        var chosen := EvalSelection(c, env, selection, |variables|);
        if chosen.Feed? { VariablesBelow(c, ep, env, ms, chosen.ev, variables, body, p); }
      case ForIdentifiers(selection, _, _) =>
        SelectionBelow(c, ep, env, ms, selection, 0, p);
        var chosen := EvalSelection(c, env, selection, 0);
        if chosen.Feed? { LoopBelow(c, ep, env, ms, chosen.ev, e, p); }
      case ForRules(selection, ruleSet, n) =>
        SelectionBelow(c, ep, env, ms, selection, |ruleSet| + n, p);
        LaterRules(c, ep, ruleSet, n);
      case Module(use) => ModuleBelow(c, ep, env, ms, use, p);
    }
  }

  lemma {:induction false} AllAreBelow(c: Scan, ep: Option<nat>, env: Env, ms: seq<seq<StringMatch>>, es: seq<Expr>, p: (Env, Expr) -> bool)
    requires env.matches.None? && EverywhereIn(c, env, es, p)
    requires forall env, e :: p(env, e) ==> Stays(c, ep, env, e)
    ensures AllBelow(EvalAll(c, env, es), EvalAll(Later(c, ep), Full(env, ms), es))
    decreases es, 0
  {
    forall k | 0 <= k < |es| ensures Below(Eval(c, env, es[k]), Eval(Later(c, ep), Full(env, ms), es[k])) {
      NoScanBelow(c, ep, env, ms, es[k], p);
    }
  }

  lemma {:induction false} SelectionBelow(c: Scan, ep: Option<nat>, env: Env, ms: seq<seq<StringMatch>>, selection: ForSelection, n: nat,
                                          p: (Env, Expr) -> bool)
    requires env.matches.None? && EverywhereInSelection(c, env, selection, p)
    requires forall env, e :: p(env, e) ==> Stays(c, ep, env, e)
    ensures ChosenBelow(EvalSelection(c, env, selection, n), EvalSelection(Later(c, ep), Full(env, ms), selection, n))
    ensures var chosen := EvalSelection(c, env, selection, n); chosen.Feed? ==> S.Started(chosen.ev)
    decreases selection, 0
  {
    if selection.SelectExpr? { NoScanBelow(c, ep, env, ms, selection.number, p); }
  }

  lemma {:induction false} ModuleBelow(c: Scan, ep: Option<nat>, env: Env, ms: seq<seq<StringMatch>>, use: ModuleExpr,
                                       p: (Env, Expr) -> bool)
    requires env.matches.None? && EverywhereIn(c, env, use.arguments, p)
    requires forall env, e :: p(env, e) ==> Stays(c, ep, env, e)
    ensures Below(EvalModule(c, env, use), EvalModule(Later(c, ep), Full(env, ms), use))
    decreases use, 0
  {
    AllAreBelow(c, ep, env, ms, use.arguments, p);
    CollectBelow(EvalAll(c, env, use.arguments), EvalAll(Later(c, ep), Full(env, ms), use.arguments));
    var args := Collect(EvalAll(c, env, use.arguments));
    if args.Ok? {
      match use.kind
      case ModuleValueAt(i) => if i < |c.modules| { LaterOps(c, ep, c.modules[i], use.ops, args.v); }
      case BoundedStack(i) => if i < |env.stack| { LaterOps(c, ep, env.stack[i], use.ops, args.v); }
      case StaticFunction(id) => LaterOps(c, ep, Function(id), use.ops, args.v);
    }
  }

  lemma {:induction false} VariablesBelow(c: Scan, ep: Option<nat>, env: Env, ms: seq<seq<StringMatch>>, ev: S.Evaluator,
                                          variables: seq<nat>, body: Expr, p: (Env, Expr) -> bool)
    requires env.matches.None? && S.Started(ev)
    requires forall k :: 0 <= k < |variables| ==> Everywhere(c, WithSelected(env, variables[k]), body, p)
    requires forall env, e :: p(env, e) ==> Stays(c, ep, env, e)
    ensures Below(SelectResults(c, ev, EvalVariables(c, env, variables, body)),
                  SelectResults(Later(c, ep), ev, EvalVariables(Later(c, ep), Full(env, ms), variables, body)))
    decreases body, 2
  {
    forall k | 0 <= k < |variables|
      ensures Below(Eval(c, WithSelected(env, variables[k]), body),
                    Eval(Later(c, ep), WithSelected(Full(env, ms), variables[k]), body))
    {
      NoScanBelow(c, ep, WithSelected(env, variables[k]), ms, body, p);
      assert Full(WithSelected(env, variables[k]), ms) == WithSelected(Full(env, ms), variables[k]);
    }
    SelectResultsBelow(c, ev, EvalVariables(c, env, variables, body), EvalVariables(Later(c, ep), Full(env, ms), variables, body));
    LaterSelect(c, ep, ev, EvalVariables(Later(c, ep), Full(env, ms), variables, body));
  }

  lemma {:induction false} TurnsBelow(c: Scan, ep: Option<nat>, env: Env, ms: seq<seq<StringMatch>>, ev: S.Evaluator,
                                      turns: seq<seq<ModuleValue>>, body: Expr, p: (Env, Expr) -> bool)
    requires env.matches.None? && S.Started(ev)
    requires forall k :: 0 <= k < |turns| ==> Everywhere(c, WithBound(env, turns[k]), body, p)
    requires forall env, e :: p(env, e) ==> Stays(c, ep, env, e)
    ensures Below(SelectResults(c, ev, EvalTurns(c, env, turns, body)),
                  SelectResults(Later(c, ep), ev, EvalTurns(Later(c, ep), Full(env, ms), turns, body)))
    decreases body, 2
  {
    forall k | 0 <= k < |turns|
      ensures Below(Eval(c, WithBound(env, turns[k]), body), Eval(Later(c, ep), WithBound(Full(env, ms), turns[k]), body))
    {
      NoScanBelow(c, ep, WithBound(env, turns[k]), ms, body, p);
      assert Full(WithBound(env, turns[k]), ms) == WithBound(Full(env, ms), turns[k]);
    }
    SelectResultsBelow(c, ev, EvalTurns(c, env, turns, body), EvalTurns(Later(c, ep), Full(env, ms), turns, body));
    LaterSelect(c, ep, ev, EvalTurns(Later(c, ep), Full(env, ms), turns, body));
  }

  lemma {:induction false} BodiesAreBelow(c: Scan, ep: Option<nat>, env: Env, ms: seq<seq<StringMatch>>, items: seq<Result>,
                                          items': seq<Result>, body: Expr, p: (Env, Expr) -> bool)
    requires env.matches.None? && AllBelow(items, items')
    requires forall k :: 0 <= k < |items| && ItemOf(items[k]).Ok? ==>
               Everywhere(c, WithBound(env, [ItemOf(items[k]).v]), body, p)
    requires forall env, e :: p(env, e) ==> Stays(c, ep, env, e)
    ensures BodiesBelow(items, EvalBodies(c, env, items, body), EvalBodies(Later(c, ep), Full(env, ms), items', body))
    decreases body, 2
  {
    forall k | 0 <= k < |items| && ItemOf(items[k]).Ok?
      ensures Below(EvalBodies(c, env, items, body)[k], EvalBodies(Later(c, ep), Full(env, ms), items', body)[k])
    {
      var vs := [ItemOf(items[k]).v];
      NoScanBelow(c, ep, WithBound(env, vs), ms, body, p);
      assert Full(WithBound(env, vs), ms) == WithBound(Full(env, ms), vs);
    }
  }

  lemma {:induction false} LoopBelow(c: Scan, ep: Option<nat>, env: Env, ms: seq<seq<StringMatch>>, ev: S.Evaluator, e: Expr,
                                     p: (Env, Expr) -> bool)
    requires e.ForIdentifiers? && env.matches.None? && Everywhere(c, env, e, p) && S.Started(ev)
    requires EvalSelection(c, env, e.selection, 0) == Feed(ev)
    requires forall env, e :: p(env, e) ==> Stays(c, ep, env, e)
    ensures Below(UndefinedIsFalse(EvalLoop(c, env, ev, e)), UndefinedIsFalse(EvalLoop(Later(c, ep), Full(env, ms), ev, e)))
    decreases e, 0
  {
    match e.iter
    case ModuleIterator(use) =>
      ModuleBelow(c, ep, env, ms, use, p);
      var v := EvalModule(c, env, use);
      if v.Ok? && Bindings(v.v).Ok? { TurnsBelow(c, ep, env, ms, ev, Bindings(v.v).v, e.body, p); }
    case Range(from, to) =>
      NoScanBelow(c, ep, env, ms, from, p);
      NoScanBelow(c, ep, env, ms, to, p);
      var f, t := IntOf(Eval(c, env, from)), IntOf(Eval(c, env, to));
      if f.Ok? && t.Ok? && f.v <= t.v { TurnsBelow(c, ep, env, ms, ev, RangeTurns(f.v, t.v), e.body, p); }
    case List(items) =>
      AllAreBelow(c, ep, env, ms, items, p);
      var rs, rs' := EvalAll(c, env, items), EvalAll(Later(c, ep), Full(env, ms), items);
      forall k | 0 <= k < |rs| && ItemOf(rs[k]).Ok? ensures Everywhere(c, WithBound(env, [ItemOf(rs[k]).v]), e.body, p) {
        assert ItemOf(Eval(c, env, items[k])) == Ok([ItemOf(rs[k]).v][0]);
        assert IsTurn(c, env, e.iter, [ItemOf(rs[k]).v]);
      }
      BodiesAreBelow(c, ep, env, ms, rs, rs', e.body, p);
      BodiesDecide(Later(c, ep), Full(env, ms), rs', e.body);
      ItemsBelow(c, ev, ev, rs, EvalBodies(c, env, rs, e.body), rs', EvalBodies(Later(c, ep), Full(env, ms), rs', e.body), 0);
      LaterItems(c, ep, ev, rs', EvalBodies(Later(c, ep), Full(env, ms), rs', e.body), 0);
  }

  /** The two passes agree on every condition none of whose lists has an undefined item, and that sees the same entry
      point, if it evaluates it, in both. */
  lemma PassesAgree(c: Scan, ep: Option<nat>, env: Env, ms: seq<seq<StringMatch>>, e: Expr)
    requires env.matches.None? && Everywhere(c, env, e, (env, e) => Steady(c, ep, env, e))
    ensures Eval(c, env, e) == Err(VarNeeded) || Eval(c, env, e) == Eval(Later(c, ep), Full(env, ms), e)
  {
    forall env, e | Steady(c, ep, env, e) ensures Stays(c, ep, env, e) {
      if e.ForIdentifiers? && e.iter.List? {
        var chosen := EvalSelection(c, env, e.selection, 0);
        var items := EvalAll(c, env, e.iter.items);
        if chosen.Feed? { DefinedSettle(c, chosen.ev, items, EvalBodies(c, env, items, e.body), 0); }
      }
    }
    NoScanBelow(c, ep, env, ms, e, (env, e) => Steady(c, ep, env, e));
  }

  /** A rule decided by the pass without matches keeps its verdict in the full pass, whose scan may have found the entry
      point; the full pass always has a verdict. */
  lemma FirstPassIsFinal(c: Scan, ep: Option<nat>, condition: Expr, ms: seq<seq<StringMatch>>)
    requires Everywhere(c, Env(None, [], None), condition, (env, e) => Steady(c, ep, env, e))
    ensures RuleVerdict(Later(c, ep), condition, Some(ms)).Some?
    ensures var first := RuleVerdict(c, condition, None);
            first.None? || first == RuleVerdict(Later(c, ep), condition, Some(ms))
  {
    PassesAgree(c, ep, Env(None, [], None), ms, condition);
    FullPassDecides(Later(c, ep), Env(None, [], Some(ms)), condition);
  }

  // ----- The condition on the entry point is needed, exactly -----

  /** No list of the condition has an undefined item. */
  ghost predicate ListsDefined(c: Scan, condition: Expr) {
    Everywhere(c, Env(None, [], None), condition, (env, e) => ItemsDefined(c, env, e))
  }

  /** Does the first pass, when it decides, decide this condition as the full pass does? */
  ghost predicate Final(c: Scan, ep: Option<nat>, condition: Expr) {
    forall ms :: RuleVerdict(c, condition, None).Some? ==>
      RuleVerdict(c, condition, None) == RuleVerdict(Later(c, ep), condition, Some(ms))
  }

  lemma {:induction false} EverywhereWeaker(c: Scan, env: Env, e: Expr, p: (Env, Expr) -> bool, q: (Env, Expr) -> bool)
    requires Everywhere(c, env, e, p) && forall env, e :: p(env, e) ==> q(env, e)
    ensures Everywhere(c, env, e, q)
    decreases e, 1
  {
    if IsOperator(e) {
      ListWeaker(c, env, Operands(e), p, q, e);
    } else {
      match e
      case For(selection, variables, body) =>
        SelectionWeaker(c, env, selection, p, q);
        forall k | 0 <= k < |variables| ensures Everywhere(c, WithSelected(env, variables[k]), body, q) {
          EverywhereWeaker(c, WithSelected(env, variables[k]), body, p, q);
        }
      case ForIdentifiers(selection, iter, body) =>
        SelectionWeaker(c, env, selection, p, q);
        match iter {
          case ModuleIterator(use) => ListWeaker(c, env, use.arguments, p, q, e);
          case Range(from, to) =>
            EverywhereWeaker(c, env, from, p, q);
            EverywhereWeaker(c, env, to, p, q);
          case List(items) => ListWeaker(c, env, items, p, q, e);
        }
        forall turn | IsTurn(c, env, iter, turn) ensures Everywhere(c, WithBound(env, turn), body, q) {
          EverywhereWeaker(c, WithBound(env, turn), body, p, q);
        }
      case ForRules(selection, _, _) => SelectionWeaker(c, env, selection, p, q);
      case Module(use) => ListWeaker(c, env, use.arguments, p, q, e);
    }
  }

  lemma {:induction false} ListWeaker(c: Scan, env: Env, es: seq<Expr>, p: (Env, Expr) -> bool, q: (Env, Expr) -> bool,
                                      top: Expr)
    requires EverywhereIn(c, env, es, p) && (forall env, e :: p(env, e) ==> q(env, e))
    requires forall k :: 0 <= k < |es| ==> es[k] < top
    ensures EverywhereIn(c, env, es, q)
    decreases top, 0
  {
    hide Everywhere;
    forall k | 0 <= k < |es| ensures Everywhere(c, env, es[k], q) { EverywhereWeaker(c, env, es[k], p, q); }
  }

  lemma {:induction false} SelectionWeaker(c: Scan, env: Env, selection: ForSelection, p: (Env, Expr) -> bool,
                                           q: (Env, Expr) -> bool)
    requires EverywhereInSelection(c, env, selection, p) && forall env, e :: p(env, e) ==> q(env, e)
    ensures EverywhereInSelection(c, env, selection, q)
    decreases selection, 0
  {
    if selection.SelectExpr? { EverywhereWeaker(c, env, selection.number, p, q); }
  }

  /** The conditions `defined entrypoint` and `entrypoint == v`. */
  lemma EntrypointVerdicts(c: Scan, v: i64, matches: Option<seq<seq<StringMatch>>>)
    ensures RuleVerdict(c, IsDefined(Entrypoint), matches) == Some(SeenEntrypoint(c).Ok?)
    ensures RuleVerdict(c, Equals(Entrypoint, Const(Integer(v)), false), matches)
         == Some(SeenEntrypoint(c) == Ok(Integer(v)))
  {
    var env := Env(None, [], matches);
    var ep, n := Expr.Entrypoint, Const(Integer(v));
    var equal, defined := Equals(ep, n, false), IsDefined(ep);
    assert Eval(c, env, ep) == SeenEntrypoint(c) && Eval(c, env, n) == Ok(Integer(v));
    assert EvalOperands(c, env, equal) == [SeenEntrypoint(c), Ok(Integer(v))];
    assert EvalOperands(c, env, defined) == [SeenEntrypoint(c)];
    assert Eval(c, env, equal) == Eq(c, SeenEntrypoint(c), Ok(Integer(v)), false);
    assert Eval(c, env, defined) == Defined(SeenEntrypoint(c));
  }

  lemma NoLists(c: Scan, env: Env, e: Expr)
    requires IsOperator(e) && forall k :: 0 <= k < |Operands(e)| ==> Operands(e)[k].Entrypoint? || Operands(e)[k].Const?
    ensures Everywhere(c, env, e, (env, e) => ItemsDefined(c, env, e))
  {
    hide ItemsDefined;
    NotLists(c, env, e);
    forall k | 0 <= k < |Operands(e)| ensures Everywhere(c, env, Operands(e)[k], (env, e) => ItemsDefined(c, env, e)) {
      NotLists(c, env, Operands(e)[k]);
      assert Operands(Operands(e)[k]) == [];
    }
  }

  lemma NotLists(c: Scan, env: Env, e: Expr)
    requires IsOperator(e)
    ensures ItemsDefined(c, env, e)
  {
  }

  lemma EntrypointLists(c: Scan, v: i64)
    ensures ListsDefined(c, IsDefined(Entrypoint)) && ListsDefined(c, Equals(Entrypoint, Const(Integer(v)), false))
  {
    hide Everywhere, ItemsDefined;
    NoLists(c, Env(None, [], None), IsDefined(Entrypoint));
    NoLists(c, Env(None, [], None), Equals(Entrypoint, Const(Integer(v)), false));
  }

  /** Between two scans whose entry points may differ, the first pass is final for every condition whose lists are
      defined exactly when the entry point is seen alike. */
  lemma EntrypointAgreesIff(c: Scan, ep: Option<nat>)
    ensures SeenEntrypoint(c) == SeenEntrypoint(Later(c, ep))
       <==> forall condition :: ListsDefined(c, condition) ==> Final(c, ep, condition)
  {
    var first, later := SeenEntrypoint(c), SeenEntrypoint(Later(c, ep));
    if first == later {
      forall condition | ListsDefined(c, condition) ensures Final(c, ep, condition) {
        EverywhereWeaker(c, Env(None, [], None), condition, (env, e) => ItemsDefined(c, env, e),
                         (env, e) => Steady(c, ep, env, e));
        forall ms ensures RuleVerdict(c, condition, None).Some? ==>
                            RuleVerdict(c, condition, None) == RuleVerdict(Later(c, ep), condition, Some(ms))
        {
          FirstPassIsFinal(c, ep, condition, ms);
        }
      }
    } else {
      hide RuleVerdict, ListsDefined;
      var v: i64 := if first.Ok? then first.v.n else 0;
      var condition := if first.Ok? && later.Ok? then Equals(Entrypoint, Const(Integer(v)), false) else IsDefined(Entrypoint);
      EntrypointVerdicts(c, v, None);
      EntrypointVerdicts(Later(c, ep), v, Some([]));
      EntrypointLists(c, v);
      assert RuleVerdict(Later(c, ep), condition, Some([])) != RuleVerdict(c, condition, None);
      assert ListsDefined(c, condition) && !Final(c, ep, condition);
    }
  }

  /** `not defined entrypoint`, on fragmented memory, is true while the entry point is not known, and false once it is. */
  lemma EntrypointWitness(c: Scan, ep: nat, ms: seq<seq<StringMatch>>)
    requires c.entrypoint == None && ep <= I64_MAX
    ensures var e := Negation(IsDefined(Entrypoint));
            && RuleVerdict(c, e, None) == Some(true)
            && RuleVerdict(Later(c, Some(ep)), e, Some(ms)) == Some(false)
  {
  }

  // ----- The condition on lists is needed, exactly -----

  /** The results of the bodies once the matches are known. */
  predicate Resolves(bodies: seq<Result>, bodies': seq<Result>) {
    AllBelow(bodies, bodies') && NoneNeeded(bodies')
  }

  lemma {:induction false} UnsettledIsFalse(c: Scan, ev: S.Evaluator, items: seq<Result>, bodies: seq<Result>, u: nat)
    requires |items| == |bodies| && !ItemsSettle(c, ev, items, bodies, u)
    ensures ev.Number? && Items(c, ev, items, bodies, u) == Ok(Boolean(false))
    decreases |items|
  {
    if ItemOf(items[0]).Ok? {
      match TriOf(c, bodies[0])
      case Unknown => UnsettledIsFalse(c, ev, items[1..], bodies[1..], u + 1);
      case Known(b) => UnsettledIsFalse(c, S.AddResult(ev, b).0, items[1..], bodies[1..], u);
    }
  }

  /** When all that was unknown turns out true, the threshold is reached before the undefined item. */
  lemma {:induction false} UnsettledMayBeTrue(c: Scan, ev: S.Evaluator, full: S.Evaluator, items: seq<Result>,
                                              bodies: seq<Result>, bodies': seq<Result>, u: nat)
    requires |items| == |bodies| == |bodies'| && !ItemsSettle(c, ev, items, bodies, u)
    requires full.Number? && full.n > 0 && ev == S.Number(full.n + u)
    requires forall k :: 0 <= k < |items| && ItemOf(items[k]).Ok? ==>
               TriOf(c, bodies'[k]) == if bodies[k] == Err(VarNeeded) then S.Known(true) else TriOf(c, bodies[k])
    ensures Items(c, full, items, bodies', 0) == Ok(Boolean(true))
    decreases |items|
  {
    var (full', done) := S.AddResult(full, TriOf(c, bodies'[0]).b);
    if done.None? {
      match TriOf(c, bodies[0])
      case Unknown => UnsettledMayBeTrue(c, ev, full', items[1..], bodies[1..], bodies'[1..], u + 1);
      case Known(b) =>
        UnsettledMayBeTrue(c, S.AddResult(ev, b).0, full', items[1..], bodies[1..], bodies'[1..], u);
    }
  }

  /** Exactly when a loop over a list agrees with the full pass, whatever its bodies turn out to be. */
  lemma ListAgreesIff(c: Scan, ev: S.Evaluator, items: seq<Result>, bodies: seq<Result>)
    requires |items| == |bodies| && S.Started(ev)
    ensures ItemsSettle(c, ev, items, bodies, 0) <==>
            forall bodies' :: Resolves(bodies, bodies') ==>
              Below(Items(c, ev, items, bodies, 0), Items(c, ev, items, bodies', 0))
  {
    if ItemsSettle(c, ev, items, bodies, 0) {
      forall bodies' | Resolves(bodies, bodies')
        ensures Below(Items(c, ev, items, bodies, 0), Items(c, ev, items, bodies', 0))
      {
        ItemsBelow(c, ev, ev, items, bodies, items, bodies', 0);
      }
    } else {
      var filled := seq(|bodies|, k requires 0 <= k < |bodies| =>
        if bodies[k] == Err(VarNeeded) then Ok(Boolean(true)) else bodies[k]);
      assert Resolves(bodies, filled);
      UnsettledIsFalse(c, ev, items, bodies, 0);
      UnsettledMayBeTrue(c, ev, ev, items, bodies, filled, 0);
    }
  }

  lemma EvalOfList(c: Scan, env: Env, selection: ForSelection, items: seq<Expr>, body: Expr, ev: S.Evaluator)
    requires EvalSelection(c, env, selection, 0) == Feed(ev)
    ensures var rs := EvalAll(c, env, items);
            Eval(c, env, ForIdentifiers(selection, List(items), body)) == Items(c, ev, rs, EvalBodies(c, env, rs, body), 0)
  {
  }

  /** The bodies `$x` wait for the matches, and are all true when there is one. */
  lemma BodiesOfVariable(c: Scan, env: Env, rs: seq<Result>, x: nat)
    ensures env.matches.None? ==> forall k :: 0 <= k < |rs| && ItemOf(rs[k]).Ok? ==>
              EvalBodies(c, env, rs, Variable(Some(x)))[k] == Err(VarNeeded)
    ensures env.matches.Some? && x < |env.matches.value| && env.matches.value[x] != [] ==>
              forall k :: 0 <= k < |rs| && ItemOf(rs[k]).Ok? ==>
                EvalBodies(c, env, rs, Variable(Some(x)))[k] == Ok(Boolean(true))
  {
  }

  /** `for <selection> i in (<items>) : ($x)`, whose selection and items do not look at matches, agrees with the full
      pass for all matches exactly when its items settle. */
  lemma ListOfVariableAgreesIff(c: Scan, env: Env, selection: ForSelection, items: seq<Expr>, x: nat)
    requires env.matches.None? && EvalSelection(c, env, selection, 0).Feed?
    requires forall ms :: EvalSelection(c, Full(env, ms), selection, 0) == EvalSelection(c, env, selection, 0)
    requires forall ms :: EvalAll(c, Full(env, ms), items) == EvalAll(c, env, items)
    ensures var e := ForIdentifiers(selection, List(items), Variable(Some(x)));
            Settles(c, env, e) <==> forall ms :: Below(Eval(c, env, e), Eval(c, Full(env, ms), e))
  {
    var body := Variable(Some(x));
    var e := ForIdentifiers(selection, List(items), body);
    var ev := EvalSelection(c, env, selection, 0).ev;
    SelectionStarts(c, env, selection, 0);
    EvalOfList(c, env, selection, items, body, ev);
    var rs := EvalAll(c, env, items);
    var bodies := EvalBodies(c, env, rs, body);
    BodiesOfVariable(c, env, rs, x);
    if Settles(c, env, e) {
      forall ms ensures Below(Eval(c, env, e), Eval(c, Full(env, ms), e)) {
        assert EvalSelection(c, Full(env, ms), selection, 0) == Feed(ev);
        EvalOfList(c, Full(env, ms), selection, items, body, ev);
        BodiesDecide(c, Full(env, ms), rs, body);
        ItemsBelow(c, ev, ev, rs, bodies, rs, EvalBodies(c, Full(env, ms), rs, body), 0);
      }
    } else {
      var ms: seq<seq<StringMatch>> := seq(x + 1, _ => [StringMatch(0, 0, 1)]);
      assert EvalSelection(c, Full(env, ms), selection, 0) == Feed(ev);
      EvalOfList(c, Full(env, ms), selection, items, body, ev);
      BodiesOfVariable(c, Full(env, ms), rs, x);
      UnsettledIsFalse(c, ev, rs, bodies, 0);
      UnsettledMayBeTrue(c, ev, ev, rs, bodies, EvalBodies(c, Full(env, ms), rs, body), 0);
    }
  }

  /** `for any i in (1, 1 \ 0) : ($a)` is false without the matches, and true once `$a` matches. */
  lemma UndefinedItemWitness(c: Scan, m: StringMatch)
    ensures var e := ForIdentifiers(
                SelectAny,
                List([Const(Integer(1)), Arithmetic(Div, Const(Integer(1)), Const(Integer(0)))]),
                Variable(Some(0)));
            && Eval(c, Env(None, [], None), e) == Ok(Boolean(false))
            && Eval(c, Env(None, [], Some([[m]])), e) == Ok(Boolean(true))
  {
    var l, r := Const(Integer(1)), Const(Integer(0));
    var items := [l, Arithmetic(Div, l, r)];
    var rs := [Ok(Integer(1)), Err(Undefined)];
    var none, full := Env(None, [], None), Env(None, [], Some([[m]]));
    DividedItems(c, none);
    DividedItems(c, full);
    EvalOfList(c, none, SelectAny, items, Variable(Some(0)), S.Number(1));
    EvalOfList(c, full, SelectAny, items, Variable(Some(0)), S.Number(1));
    BodiesOfVariable(c, none, rs, 0);
    BodiesOfVariable(c, full, rs, 0);
    TwoItems(c, rs, EvalBodies(c, none, rs, Variable(Some(0))), EvalBodies(c, full, rs, Variable(Some(0))));
  }

  lemma DividedItems(c: Scan, env: Env)
    ensures var l, r := Const(Integer(1)), Const(Integer(0));
            EvalAll(c, env, [l, Arithmetic(Div, l, r)]) == [Ok(Integer(1)), Err(Undefined)]
  {
    var l, r := Const(Integer(1)), Const(Integer(0));
    var d := Arithmetic(Div, l, r);
    assert Operands(d) == [l, r];
    assert Eval(c, env, l) == Ok(Integer(1)) && Eval(c, env, r) == Ok(Integer(0));
    assert Eval(c, env, d) == Apply(c, env, d, EvalOperands(c, env, d));
    assert Eval(c, env, d) == Err(Undefined);
  }

  lemma TwoItems(c: Scan, rs: seq<Result>, bodies: seq<Result>, bodies': seq<Result>)
    requires rs == [Ok(Integer(1)), Err(Undefined)] && |bodies| == |bodies'| == 2
    requires bodies[0] == Err(VarNeeded) && bodies'[0] == Ok(Boolean(true))
    ensures Items(c, S.Number(1), rs, bodies, 0) == Ok(Boolean(false))
    ensures Items(c, S.Number(1), rs, bodies', 0) == Ok(Boolean(true))
  {
    assert rs[1..] == [Err(Undefined)];
    assert SelectItems(c, S.Number(1), rs[1..], bodies[1..], 1) == Err(Undefined);
  }
}
