/** Compiled conditions (`compiler/expression.rs`) and what they evaluate to (`evaluator/mod.rs`,
    `evaluator/module.rs`), as a function of the scan. */
module Expressions {
  import opened Base
  import opened Values
  import S = Selection
  import opened VarMatches

  // ----- Conditions -----

  /** `Option.None` stands for the variable selected by the enclosing `for` expression. */
  type VariableIndex = Option<nat>

  datatype Expr =
    | Const(v: Value)
    | Filesize
    | Entrypoint
    | ReadInteger(ty: nat, addr: Expr)
    | Count(variable: VariableIndex)
    | CountInRange(variable: VariableIndex, from: Expr, to: Expr)
    | Offset(variable: VariableIndex, occurence: Expr)
    | Length(variable: VariableIndex, occurence: Expr)
    | Negate(e: Expr)
    | Arithmetic(arithOp: ArithOp, l: Expr, r: Expr)
    | IntArithmetic(intOp: IntOp, l: Expr, r: Expr)
    | BitwiseNot(e: Expr)
    | Conj(es: seq<Expr>)
    | Disj(es: seq<Expr>)
    | Negation(e: Expr)
    | Compare(l: Expr, r: Expr, lessThan: bool, canBeEqual: bool)
    | Equals(l: Expr, r: Expr, negated: bool)
    | StringOperation(stringOp: StringOp, l: Expr, r: Expr, caseInsensitive: bool)
    | MatchesRe(e: Expr, regex: nat)
    | IsDefined(e: Expr)
    | Variable(variable: VariableIndex)
    | VariableAt(variable: VariableIndex, offset: Expr)
    | VariableIn(variable: VariableIndex, from: Expr, to: Expr)
    | For(selection: ForSelection, variables: seq<nat>, body: Expr)
    | ForIdentifiers(selection: ForSelection, iter: ForIterator, body: Expr)
    | ForRules(selection: ForSelection, ruleSet: seq<nat>, alreadyMatched: nat)
    | Module(use: ModuleExpr)
    | RuleResult(index: nat)
    | ExternalSymbol(index: nat)

  datatype ForSelection = SelectAny | SelectAll | SelectNone | SelectExpr(number: Expr, asPercent: bool)

  datatype ForIterator = ModuleIterator(use: ModuleExpr) | Range(from: Expr, to: Expr) | List(items: seq<Expr>)

  datatype ModuleKind = ModuleValueAt(index: nat) | BoundedStack(index: nat) | StaticFunction(id: nat)

  datatype ModuleExpr = ModuleExpr(kind: ModuleKind, arguments: seq<Expr>, ops: seq<Op>)

  // ----- The state of an evaluation -----

  /** The variable selected, the identifiers bound, and the matches of the variables, unless they are not known yet. */
  datatype Env = Env(selected: Option<nat>, stack: seq<ModuleValue>, matches: Option<seq<seq<StringMatch>>>)

  // ----- Variables -----

  /** The matches of a variable. */
  function MatchesOf(env: Env, variable: VariableIndex): Res<seq<StringMatch>> {
    var index := if variable.Some? then variable else env.selected;
    if index.None? then Err(Undefined)
    else if env.matches.None? then Err(VarNeeded)
    else if index.value >= |env.matches.value| then Err(Stuck)
    else Ok(env.matches.value[index.value])
  }

  function ToI64(n: nat): Result {
    if n <= I64_MAX then Ok(Integer(n)) else Err(Undefined)
  }

  /** Counts are kept on 32 bits. */
  function CountValue(n: nat): Value {
    Integer(n % 0x1_0000_0000)
  }

  function EvalCount(env: Env, variable: VariableIndex): Result {
    var ms := MatchesOf(env, variable);
    if ms.Err? then Err(ms.p) else Ok(CountValue(|ms.v|))
  }

  /** Negative bounds count as zero. */
  function EvalCountIn(env: Env, variable: VariableIndex, from: Result, to: Result): Result {
    var f := IntOf(from);
    if f.Err? then Err(f.p)
    else
      var t := IntOf(to);
      if t.Err? then Err(t.p)
      else
        var ms := MatchesOf(env, variable);
        if ms.Err? then Err(ms.p)
        else Ok(CountValue(CountIn(ms.v, if f.v < 0 then 0 else f.v, if t.v < 0 then 0 else t.v)))
  }

  /** Occurrences are numbered from 1. */
  function Occurence(env: Env, variable: VariableIndex, number: Result): Res<StringMatch> {
    var n := IntOf(number);
    if n.Err? then Err(n.p)
    else if n.v <= 0 then Err(Undefined)
    else
      var ms := MatchesOf(env, variable);
      if ms.Err? then Err(ms.p) else if n.v <= |ms.v| then Ok(ms.v[n.v - 1]) else Err(Undefined)
  }

  function EvalOffset(env: Env, variable: VariableIndex, number: Result): Result {
    var m := Occurence(env, variable, number);
    if m.Err? then Err(m.p)
    else if m.v.offset + m.v.base > USIZE_MAX then Err(Undefined)
    else ToI64(m.v.offset + m.v.base)
  }

  function EvalLength(env: Env, variable: VariableIndex, number: Result): Result {
    var m := Occurence(env, variable, number);
    if m.Err? then Err(m.p) else ToI64(m.v.length)
  }

  function EvalVariable(env: Env, variable: VariableIndex): Result {
    var ms := MatchesOf(env, variable);
    if ms.Err? then Err(ms.p) else Ok(Boolean(ms.v != []))
  }

  /** No variable is at a negative offset, whatever the matches. */
  function EvalVariableAt(env: Env, variable: VariableIndex, offset: Result): Result {
    var o := IntOf(offset);
    if o.Err? then Err(o.p)
    else if o.v < 0 then Ok(Boolean(false))
    else
      var ms := MatchesOf(env, variable);
      if ms.Err? then Err(ms.p) else Ok(Boolean(ExistsAt(ms.v, o.v)))
  }

  function EvalVariableIn(env: Env, variable: VariableIndex, from: Result, to: Result): Result {
    var f := IntOf(from);
    if f.Err? then Err(f.p)
    else
      var t := IntOf(to);
      if t.Err? then Err(t.p)
      else if !(0 <= f.v <= t.v) then Ok(Boolean(false))
      else
        var ms := MatchesOf(env, variable);
        if ms.Err? then Err(ms.p) else Ok(Boolean(ExistsIn(ms.v, f.v, t.v)))
  }

  // ----- Selections -----

  /** A selection is an evaluator to feed with the results of the body, or a value at once. */
  datatype Chosen = Feed(ev: S.Evaluator) | Value(r: Result)

  /** From the value of the number of a selection. An undefined number makes the whole expression false. */
  function ChooseNumber(c: Scan, r: Result, asPercent: bool, nbElements: nat): Chosen {
    var n := IntOf(r);
    if n.Err? then if IsUndefined(n.p) then Value(Ok(Boolean(false))) else Value(Err(n.p))
    else if !asPercent && n.v == 0 then Feed(S.Evaluator.None)
    else
      var value := if asPercent then c.percentOf(n.v, nbElements) else n.v;
      if value <= 0 then Value(Ok(Boolean(true))) else Feed(S.Number(value))
  }

  function TriOf(c: Scan, r: Result): S.Tri {
    match r
    case Ok(v) => S.Known(ToBool(c, v))
    case Err(VarNeeded) => S.Unknown
    case Err(_) => S.Known(false)
  }

  function TrisOf(c: Scan, rs: seq<Result>): (ts: seq<S.Tri>)
    ensures |ts| == |rs|
    ensures forall k :: 0 <= k < |rs| ==> ts[k] == TriOf(c, rs[k])
  {
    seq(|rs|, k requires 0 <= k < |rs| => TriOf(c, rs[k]))
  }

  function FromVerdict(v: S.Verdict): Result {
    if v.Decided? then Ok(Boolean(v.b)) else Err(VarNeeded)
  }

  /** The verdict on the results of the body. */
  function SelectResults(c: Scan, ev: S.Evaluator, rs: seq<Result>): Result {
    FromVerdict(S.Select(ev, TrisOf(c, rs), 0))
  }

  /** The rules of a set, after the ones that already matched. Indexes are in range in a compiled condition. */
  function RuleTris(c: Scan, ruleSet: seq<nat>, alreadyMatched: nat): seq<S.Tri> {
    seq(alreadyMatched, _ => S.Known(true))
      + seq(|ruleSet|, k requires 0 <= k < |ruleSet| => S.Known(ruleSet[k] < |c.rules| && c.rules[ruleSet[k]]))
  }

  /** The loop over a list of items: an item that is neither an integer nor bytes ends it. The bodies of such items
      are not looked at. */
  function SelectItems(c: Scan, ev: S.Evaluator, items: seq<Result>, bodies: seq<Result>, nbVarsNeeded: nat): Result
    requires |items| == |bodies|
    decreases items
  {
    if items == [] then FromVerdict(S.End(ev, nbVarsNeeded))
    else
      var item := ItemOf(items[0]);
      if item.Err? then Err(item.p)
      else
        match TriOf(c, bodies[0])
        case Unknown => SelectItems(c, ev, items[1..], bodies[1..], nbVarsNeeded + 1)
        case Known(b) =>
          var (next, result) := S.AddResult(ev, b);
          if result.Some? then Ok(Boolean(result.value))
          else SelectItems(c, next, items[1..], bodies[1..], nbVarsNeeded)
  }

  /** The value bound to the identifier for an item of a list. */
  function ItemOf(r: Result): Res<ModuleValue> {
    match r
    case Ok(Integer(n)) => Ok(MInteger(n))
    case Ok(Bytes(s)) => Ok(MBytes(s))
    case Ok(_) => Err(Stuck)
    case Err(p) => Err(p)
  }

  /** The values bound by one turn of a module iterator. */
  function Bindings(v: ModuleValue): Res<seq<seq<ModuleValue>>> {
    match v
    case Array(vs) => Ok(seq(|vs|, k requires 0 <= k < |vs| => [vs[k]]))
    case Dictionary(entries) => Ok(seq(|entries|, k requires 0 <= k < |entries| => [MBytes(entries[k].0), entries[k].1]))
    case MUndefined => Err(Undefined)
    case _ => Err(Stuck)
  }

  function RangeTurns(from: i64, to: i64): (turns: seq<seq<ModuleValue>>)
    requires from <= to
    ensures |turns| == to - from + 1
    ensures forall k :: 0 <= k < |turns| ==> from + k <= to && turns[k] == [MInteger(from + k)]
  {
    seq(to - from + 1, k requires 0 <= k <= to - from => [MInteger(from + k)])
  }

  /** An iterator that cannot be computed makes the whole expression false. */
  function UndefinedIsFalse(r: Result): Result {
    if r.Err? && IsUndefined(r.p) then Ok(Boolean(false)) else r
  }

  // ----- Evaluation -----

  function WithSelected(env: Env, index: nat): Env {
    env.(selected := Some(index))
  }

  function WithBound(env: Env, vs: seq<ModuleValue>): Env {
    env.(stack := env.stack + vs)
  }

  /** The operators whose operands are all evaluated in the same environment. */
  predicate IsOperator(e: Expr) {
    !e.For? && !e.ForIdentifiers? && !e.ForRules? && !e.Module?
  }

  function Operands(e: Expr): (es: seq<Expr>)
    ensures forall k :: 0 <= k < |es| ==> es[k] < e
  {
    match e
    case ReadInteger(_, a) => [a]
    case CountInRange(_, a, b) => [a, b]
    case Offset(_, a) => [a]
    case Length(_, a) => [a]
    case Negate(a) => [a]
    case Arithmetic(_, a, b) => [a, b]
    case IntArithmetic(_, a, b) => [a, b]
    case BitwiseNot(a) => [a]
    case Conj(es) => es
    case Disj(es) => es
    case Negation(a) => [a]
    case Compare(a, b, _, _) => [a, b]
    case Equals(a, b, _) => [a, b]
    case StringOperation(_, a, b, _) => [a, b]
    case MatchesRe(a, _) => [a]
    case IsDefined(a) => [a]
    case VariableAt(_, a) => [a]
    case VariableIn(_, a, b) => [a, b]
    case _ => []
  }

  function EvalRead(c: Scan, ty: nat, addr: Result): Result {
    var a := IntOf(addr);
    if a.Err? then Err(a.p)
    else if a.v < 0 then Err(Undefined)
    else
      var r := c.readInteger(ty, a.v);
      if r.None? then Err(Undefined) else Ok(Integer(r.value))
  }

  /** An operator applied to the results of its operands. */
  function Apply(c: Scan, env: Env, e: Expr, rs: seq<Result>): Result
    requires IsOperator(e) && |rs| == |Operands(e)|
  {
    match e
    case Const(v) => Ok(v)
    case Filesize => if c.filesize.Some? then Ok(Integer(Min(c.filesize.value, I64_MAX))) else Err(Undefined)
    case Entrypoint => if c.entrypoint.Some? then ToI64(c.entrypoint.value) else Err(Undefined)
    case ReadInteger(ty, _) => EvalRead(c, ty, rs[0])
    case Count(x) => EvalCount(env, x)
    case CountInRange(x, _, _) => EvalCountIn(env, x, rs[0], rs[1])
    case Offset(x, _) => EvalOffset(env, x, rs[0])
    case Length(x, _) => EvalLength(env, x, rs[0])
    case Negate(_) => Neg(c, rs[0])
    case Arithmetic(op, _, _) => Arith(c, op, rs[0], rs[1])
    case IntArithmetic(op, _, _) => IntArith(op, rs[0], rs[1])
    case BitwiseNot(_) => BitNot(rs[0])
    case Conj(_) => Conjunction(c, rs, false)
    case Disj(_) => Disjunction(c, rs, false)
    case Negation(_) => Not(c, rs[0])
    case Compare(_, _, lessThan, canBeEqual) => Cmp(c, rs[0], rs[1], lessThan, canBeEqual)
    case Equals(_, _, negated) => Eq(c, rs[0], rs[1], negated)
    case StringOperation(op, _, _, ci) => Strings(op, ci, rs[0], rs[1])
    case MatchesRe(_, regex) => MatchesRegex(c, rs[0], regex)
    case IsDefined(_) => Defined(rs[0])
    case Variable(x) => EvalVariable(env, x)
    case VariableAt(x, _) => EvalVariableAt(env, x, rs[0])
    case VariableIn(x, _, _) => EvalVariableIn(env, x, rs[0], rs[1])
    case RuleResult(i) => if i < |c.rules| then Ok(Boolean(c.rules[i])) else Err(Stuck)
    case ExternalSymbol(i) => if i < |c.externals| then Ok(c.externals[i]) else Err(Stuck)
  }

  function Eval(c: Scan, env: Env, e: Expr): Result
    decreases e, 1
  {
    if IsOperator(e) then Apply(c, env, e, EvalOperands(c, env, e))
    else
      match e
      case For(selection, variables, body) =>
        var chosen := EvalSelection(c, env, selection, |variables|);
        if chosen.Value? then chosen.r else SelectResults(c, chosen.ev, EvalVariables(c, env, variables, body))
      case ForIdentifiers(selection, iter, body) =>
        var chosen := EvalSelection(c, env, selection, 0);
        if chosen.Value? then chosen.r else UndefinedIsFalse(EvalLoop(c, env, chosen.ev, e))
      case ForRules(selection, ruleSet, alreadyMatched) =>
        var chosen := EvalSelection(c, env, selection, |ruleSet| + alreadyMatched);
        if chosen.Value? then chosen.r
        else FromVerdict(S.Select(chosen.ev, RuleTris(c, ruleSet, alreadyMatched), 0))
      case Module(use) =>
        var v := EvalModule(c, env, use);
        if v.Err? then Err(v.p) else FromModule(c, v.v)
  }

  function EvalOperands(c: Scan, env: Env, e: Expr): (rs: seq<Result>)
    ensures |rs| == |Operands(e)|
    ensures forall k :: 0 <= k < |rs| ==> rs[k] == Eval(c, env, Operands(e)[k])
    decreases e, 0
  {
    seq(|Operands(e)|, k requires 0 <= k < |Operands(e)| => Eval(c, env, Operands(e)[k]))
  }

  function EvalSelection(c: Scan, env: Env, selection: ForSelection, nbElements: nat): Chosen
    decreases selection, 0
  {
    match selection
    case SelectAny => Feed(S.Number(1))
    case SelectAll => Feed(S.All)
    case SelectNone => Feed(S.Evaluator.None)
    case SelectExpr(number, asPercent) => ChooseNumber(c, Eval(c, env, number), asPercent, nbElements)
  }

  /** `evaluate_for_iterator` */
  function EvalLoop(c: Scan, env: Env, ev: S.Evaluator, e: Expr): Result
    requires e.ForIdentifiers?
    decreases e, 0
  {
    var body := e.body;
    match e.iter
    case ModuleIterator(use) =>
      var v := EvalModule(c, env, use);
      if v.Err? then Err(v.p)
      else
        var turns := Bindings(v.v);
        if turns.Err? then Err(turns.p) else SelectResults(c, ev, EvalTurns(c, env, turns.v, body))
    case Range(from, to) =>
      var f := IntOf(Eval(c, env, from));
      if f.Err? then Err(f.p)
      else
        var t := IntOf(Eval(c, env, to));
        if t.Err? then Err(t.p)
        else if f.v > t.v then Err(Undefined)
        else SelectResults(c, ev, EvalTurns(c, env, RangeTurns(f.v, t.v), body))
    case List(items) =>
      var rs := EvalAll(c, env, items);
      SelectItems(c, ev, rs, EvalBodies(c, env, rs, body), 0)
  }

  /** The results of a list of expressions. */
  function EvalAll(c: Scan, env: Env, es: seq<Expr>): (rs: seq<Result>)
    ensures |rs| == |es|
    ensures forall k :: 0 <= k < |es| ==> rs[k] == Eval(c, env, es[k])
    decreases es, 0
  {
    seq(|es|, k requires 0 <= k < |es| => Eval(c, env, es[k]))
  }

  /** The results of the body for each of the variables. */
  function EvalVariables(c: Scan, env: Env, variables: seq<nat>, body: Expr): (rs: seq<Result>)
    ensures |rs| == |variables|
    ensures forall k :: 0 <= k < |rs| ==> rs[k] == Eval(c, WithSelected(env, variables[k]), body)
    decreases body, 2
  {
    seq(|variables|, k requires 0 <= k < |variables| => Eval(c, WithSelected(env, variables[k]), body))
  }

  /** The results of the body for each turn, which binds some values. */
  function EvalTurns(c: Scan, env: Env, turns: seq<seq<ModuleValue>>, body: Expr): (rs: seq<Result>)
    ensures |rs| == |turns|
    ensures forall k :: 0 <= k < |rs| ==> rs[k] == Eval(c, WithBound(env, turns[k]), body)
    decreases body, 2
  {
    seq(|turns|, k requires 0 <= k < |turns| => Eval(c, WithBound(env, turns[k]), body))
  }

  /** The results of the body for each item of a list. */
  function EvalBodies(c: Scan, env: Env, items: seq<Result>, body: Expr): (rs: seq<Result>)
    ensures |rs| == |items|
    ensures forall k :: 0 <= k < |rs| && ItemOf(items[k]).Ok? ==>
              rs[k] == Eval(c, WithBound(env, [ItemOf(items[k]).v]), body)
    decreases body, 2
  {
    seq(|items|, k requires 0 <= k < |items| =>
      if ItemOf(items[k]).Ok? then Eval(c, WithBound(env, [ItemOf(items[k]).v]), body) else Err(Undefined))
  }

  /** `module::evaluate_expr`: all the arguments are evaluated, then the path is followed. */
  function EvalModule(c: Scan, env: Env, use: ModuleExpr): Res<ModuleValue>
    decreases use, 0
  {
    var args := Collect(EvalAll(c, env, use.arguments));
    if args.Err? then Err(args.p)
    else
      match use.kind
      case ModuleValueAt(i) => if i < |c.modules| then EvalOps(c, c.modules[i], use.ops, args.v) else Err(Stuck)
      case BoundedStack(i) => if i < |env.stack| then EvalOps(c, env.stack[i], use.ops, args.v) else Err(Stuck)
      case StaticFunction(id) =>
        if use.ops == [] || !use.ops[0].Call? then Err(Stuck) else EvalOps(c, Function(id), use.ops, args.v)
  }

  /** `evaluate_rule`: an undefined condition is false, and one that needs the matches is not decided. */
  function RuleVerdict(c: Scan, condition: Expr, matches: Option<seq<seq<StringMatch>>>): Option<bool> {
    match TriOf(c, Eval(c, Env(None, [], matches), condition))
    case Known(b) => Some(b)
    case Unknown => None
  }

  // ----- Sub-evaluations -----

  /** Does some turn of the loop bind these values? */
  ghost predicate IsTurn(c: Scan, env: Env, iter: ForIterator, turn: seq<ModuleValue>) {
    match iter
    case ModuleIterator(use) =>
      var v := EvalModule(c, env, use);
      v.Ok? && Bindings(v.v).Ok? && turn in Bindings(v.v).v
    case Range(from, to) =>
      var f, t := IntOf(Eval(c, env, from)), IntOf(Eval(c, env, to));
      f.Ok? && t.Ok? && f.v <= t.v && turn in RangeTurns(f.v, t.v)
    case List(items) =>
      |turn| == 1 && exists k :: 0 <= k < |items| && ItemOf(Eval(c, env, items[k])) == Ok(turn[0])
  }

  /** Does `p` hold of the expression and of everything that its evaluation may evaluate, where it does? */
  ghost predicate Everywhere(c: Scan, env: Env, e: Expr, p: (Env, Expr) -> bool)
    decreases e, 1
  {
    && p(env, e)
    && if IsOperator(e) then forall k :: 0 <= k < |Operands(e)| ==> Everywhere(c, env, Operands(e)[k], p)
       else
         match e
         case For(selection, variables, body) =>
           && EverywhereInSelection(c, env, selection, p)
           && forall k :: 0 <= k < |variables| ==> Everywhere(c, WithSelected(env, variables[k]), body, p)
         case ForIdentifiers(selection, iter, body) =>
           && EverywhereInSelection(c, env, selection, p)
           && EverywhereInIterator(c, env, iter, p)
           && forall turn :: IsTurn(c, env, iter, turn) ==> Everywhere(c, WithBound(env, turn), body, p)
         case ForRules(selection, _, _) => EverywhereInSelection(c, env, selection, p)
         case Module(use) => EverywhereIn(c, env, use.arguments, p)
  }

  ghost predicate EverywhereIn(c: Scan, env: Env, es: seq<Expr>, p: (Env, Expr) -> bool)
    decreases es, 0
  {
    forall k :: 0 <= k < |es| ==> Everywhere(c, env, es[k], p)
  }

  ghost predicate EverywhereInSelection(c: Scan, env: Env, selection: ForSelection, p: (Env, Expr) -> bool)
    decreases selection, 0
  {
    selection.SelectExpr? ==> Everywhere(c, env, selection.number, p)
  }

  ghost predicate EverywhereInIterator(c: Scan, env: Env, iter: ForIterator, p: (Env, Expr) -> bool)
    decreases iter, 0
  {
    match iter
    case ModuleIterator(use) => EverywhereIn(c, env, use.arguments, p)
    case Range(from, to) => Everywhere(c, env, from, p) && Everywhere(c, env, to, p)
    case List(items) => EverywhereIn(c, env, items, p)
  }
}
