/** What loops, sets of rules and module paths answer, said without the functions that compute it: laws on `Eval`. */
module LoopLaws {
  import opened Base
  import opened Values
  import opened VarMatches
  import opened Expressions
  import opened Laws
  import S = Selection

  // ----- Selections -----

  /** What a selection says of bodies with these values, of which percentages take `total`. A number without a value makes
      the whole false. */
  function Verdict(c: Scan, env: Env, selection: ForSelection, total: nat, bs: seq<bool>): Result {
    match selection
    case SelectAny => Ok(Boolean(true in bs))
    case SelectAll => Ok(Boolean(false !in bs))
    case SelectNone => Ok(Boolean(true !in bs))
    case SelectExpr(number, asPercent) =>
      match Eval(c, env, number)
      case Ok(Integer(n)) =>
        Ok(Boolean(if asPercent then |S.Trues(bs)| >= c.percentOf(n, total) else if n == 0 then true !in bs else |S.Trues(bs)| >= n))
      case Err(VarNeeded) => Err(VarNeeded)
      case _ => Ok(Boolean(false))
  }

  /** The values that the bodies may have, those that wait for matches being anything. */
  predicate MayBe(c: Scan, r: Result, b: bool) {
    r == Err(VarNeeded) || (if b then IsTrue(c, r) else IsFalse(c, r))
  }

  predicate AllMayBe(c: Scan, rs: seq<Result>, bs: seq<bool>) {
    |rs| == |bs| && forall j :: 0 <= j < |bs| ==> MayBe(c, rs[j], bs[j])
  }

  function Selected(c: Scan, chosen: Chosen, rs: seq<Result>): Result {
    if chosen.Value? then chosen.r else SelectResults(c, chosen.ev, rs)
  }

  lemma CompletionsAre(c: Scan, rs: seq<Result>, bs: seq<bool>)
    ensures S.Completion(TrisOf(c, rs), bs) <==> AllMayBe(c, rs, bs)
  {
    var ts := TrisOf(c, rs);
    if |bs| == |rs| {
      forall j | 0 <= j < |bs| ensures ts[j] == S.Known(bs[j]) || ts[j].Unknown? <==> MayBe(c, rs[j], bs[j]) {
        assert ts[j] == TriOf(c, rs[j]);
      }
    }
  }

  function OfChosen(chosen: Chosen, bs: seq<bool>): Result {
    if chosen.Value? then chosen.r else Ok(Boolean(S.Meets(chosen.ev, bs)))
  }

  lemma MeetsIsVerdict(c: Scan, env: Env, selection: ForSelection, total: nat, bs: seq<bool>)
    ensures Verdict(c, env, selection, total, bs) == OfChosen(EvalSelection(c, env, selection, total), bs)
    ensures var chosen := EvalSelection(c, env, selection, total); chosen.Feed? ==> S.Started(chosen.ev)
  {
    hide Eval;
    S.TruesAreCounted(bs);
    SomeTrueCounts(bs);
  }

  lemma {:induction false} SomeTrueCounts(bs: seq<bool>)
    ensures true in bs <==> S.CountTrue(bs) >= 1
    decreases |bs|
  {
    if bs != [] {
      SomeTrueCounts(bs[1..]);
      assert bs == [bs[0]] + bs[1..];
    }
  }

  /** The answer is a boolean when the selection gives that boolean whatever the bodies that wait turn out to be, and
      otherwise waits. */
  ghost predicate IsCertain(c: Scan, env: Env, selection: ForSelection, total: nat, rs: seq<Result>, r: Result) {
    && (r == Err(VarNeeded) || (r.Ok? && r.v.Boolean?))
    && forall b :: r == Ok(Boolean(b)) <==> AlwaysSays(c, env, selection, total, rs, b)
  }

  ghost predicate AlwaysSays(c: Scan, env: Env, selection: ForSelection, total: nat, rs: seq<Result>, b: bool) {
    forall bs :: AllMayBe(c, rs, bs) ==> Verdict(c, env, selection, total, bs) == Ok(Boolean(b))
  }

  lemma SomeValues(c: Scan, rs: seq<Result>) returns (bs: seq<bool>)
    ensures AllMayBe(c, rs, bs)
  {
    bs := seq(|rs|, j requires 0 <= j < |rs| => IsTrue(c, rs[j]));
  }

  lemma SelectedIsCertain(c: Scan, env: Env, selection: ForSelection, total: nat, rs: seq<Result>)
    ensures IsCertain(c, env, selection, total, rs, Selected(c, EvalSelection(c, env, selection, total), rs))
  {
    hide Eval, Verdict, EvalSelection, S.Select, S.Meets, MayBe;
    var chosen := EvalSelection(c, env, selection, total);
    var some := SomeValues(c, rs);
    ChosenIsResult(c, env, selection, total);
    forall bs { MeetsIsVerdict(c, env, selection, total, bs); }
    forall b: bool ensures Selected(c, chosen, rs) == Ok(Boolean(b)) <==> AlwaysSays(c, env, selection, total, rs, b) {
      if chosen.Feed? {
        MeetsIsVerdict(c, env, selection, total, some);
        S.SelectIsCertain(chosen.ev, TrisOf(c, rs), b);
        forall bs { CompletionsAre(c, rs, bs); }
      }
    }
  }

  lemma ChosenIsResult(c: Scan, env: Env, selection: ForSelection, total: nat)
    ensures var chosen := EvalSelection(c, env, selection, total);
            chosen.Value? ==> chosen.r == Err(VarNeeded) || (chosen.r.Ok? && chosen.r.v.Boolean?)
  {
    hide Eval;
  }

  // ----- Loops -----

  lemma ForVariables(c: Scan, env: Env, selection: ForSelection, variables: seq<nat>, body: Expr, rs: seq<Result>)
    requires |rs| == |variables|
    requires forall j :: 0 <= j < |rs| ==> rs[j] == Eval(c, env.(selected := Some(variables[j])), body)
    ensures IsCertain(c, env, selection, |variables|, rs, Eval(c, env, For(selection, variables, body)))
  {
    hide EvalSelection, SelectResults, IsCertain, Apply;
    SelectedIsCertain(c, env, selection, |variables|, rs);
    assert EvalVariables(c, env, variables, body) == rs;
  }

  /** The result of the body with these values bound. */
  function Turn(c: Scan, env: Env, vs: seq<ModuleValue>, body: Expr): Result {
    Eval(c, env.(stack := env.stack + vs), body)
  }

  predicate AreTurns(c: Scan, env: Env, turns: seq<seq<ModuleValue>>, body: Expr, rs: seq<Result>) {
    |rs| == |turns| && forall j :: 0 <= j < |rs| ==> rs[j] == Turn(c, env, turns[j], body)
  }

  lemma TurnsAre(c: Scan, env: Env, turns: seq<seq<ModuleValue>>, body: Expr, rs: seq<Result>)
    requires AreTurns(c, env, turns, body, rs)
    ensures EvalTurns(c, env, turns, body) == rs
  {
    hide Eval;
    var all := EvalTurns(c, env, turns, body);
    forall j | 0 <= j < |rs| ensures all[j] == rs[j] { assert WithBound(env, turns[j]) == env.(stack := env.stack + turns[j]); }
  }

  lemma LoopIs(c: Scan, env: Env, selection: ForSelection, iter: ForIterator, body: Expr)
    ensures var chosen := EvalSelection(c, env, selection, 0);
            var e := ForIdentifiers(selection, iter, body);
            Eval(c, env, e) == if chosen.Value? then chosen.r else UndefinedIsFalse(EvalLoop(c, env, chosen.ev, e))
  {
    hide EvalSelection, EvalLoop, Apply;
  }

  lemma CertainIsKept(c: Scan, env: Env, selection: ForSelection, total: nat, rs: seq<Result>, r: Result)
    requires IsCertain(c, env, selection, total, rs, r)
    ensures UndefinedIsFalse(r) == r
  {
    hide AlwaysSays;
  }

  /** A loop over a range has a turn for each integer from the first bound to the second, both included. */
  lemma LoopOnRange(c: Scan, env: Env, selection: ForSelection, from: Expr, to: Expr, body: Expr, f: i64, t: i64,
                    rs: seq<Result>)
    requires IsInt(c, env, from, f) && IsInt(c, env, to, t) && f <= t && |rs| == t - f + 1
    requires forall j :: 0 <= j < |rs| ==> f + j <= t && rs[j] == Turn(c, env, [MInteger(f + j)], body)
    ensures IsCertain(c, env, selection, 0, rs, Eval(c, env, ForIdentifiers(selection, Range(from, to), body)))
  {
    hide Eval, EvalSelection, SelectResults, IsCertain;
    var turns := RangeTurns(f, t);
    assert AreTurns(c, env, turns, body, rs);
    TurnsAre(c, env, turns, body, rs);
    LoopIs(c, env, selection, Range(from, to), body);
    SelectedIsCertain(c, env, selection, 0, rs);
    CertainIsKept(c, env, selection, 0, rs, Selected(c, EvalSelection(c, env, selection, 0), rs));
  }

  /** What a loop answers without a turn, when its iterator has no value: the number of its selection comes first. */
  function WithoutTurns(c: Scan, env: Env, selection: ForSelection): Result {
    if !selection.SelectExpr? then Ok(Boolean(false))
    else
      match Eval(c, env, selection.number)
      case Ok(Integer(n)) => Ok(Boolean(if selection.asPercent then c.percentOf(n, 0) <= 0 else n < 0))
      case Err(VarNeeded) => Err(VarNeeded)
      case _ => Ok(Boolean(false))
  }

  /** The bounds have no value or come in the wrong order, or what is iterated over has no value. */
  predicate HasNoTurns(c: Scan, env: Env, iter: ForIterator) {
    match iter
    case Range(from, to) =>
      var f, t := Eval(c, env, from), Eval(c, env, to);
      || f == Err(Undefined)
      || (f.Ok? && f.v.Integer? && (t == Err(Undefined) || (t.Ok? && t.v.Integer? && f.v.n > t.v.n)))
    case ModuleIterator(use) => EvalModule(c, env, use) == Err(Undefined) || EvalModule(c, env, use) == Ok(MUndefined)
    case List(_) => false
  }

  lemma NoTurns(c: Scan, env: Env, selection: ForSelection, iter: ForIterator, body: Expr)
    requires HasNoTurns(c, env, iter)
    ensures Eval(c, env, ForIdentifiers(selection, iter, body)) == WithoutTurns(c, env, selection)
  {
    hide Eval, EvalModule, SelectResults;
    LoopIs(c, env, selection, iter, body);
  }

  predicate Binds(v: ModuleValue, turns: seq<seq<ModuleValue>>) {
    match v
    case Array(vs) => |turns| == |vs| && forall j :: 0 <= j < |vs| ==> turns[j] == [vs[j]]
    case Dictionary(entries) =>
      |turns| == |entries| && forall j :: 0 <= j < |entries| ==> turns[j] == [MBytes(entries[j].0), entries[j].1]
    case _ => false
  }

  /** A loop over an array binds each value; one over a dictionary binds each key with its value. */
  lemma LoopOnValues(c: Scan, env: Env, selection: ForSelection, use: ModuleExpr, body: Expr, turns: seq<seq<ModuleValue>>,
                     rs: seq<Result>)
    requires EvalModule(c, env, use).Ok? && Binds(EvalModule(c, env, use).v, turns)
    requires AreTurns(c, env, turns, body, rs)
    ensures IsCertain(c, env, selection, 0, rs, Eval(c, env, ForIdentifiers(selection, ModuleIterator(use), body)))
  {
    hide Eval, EvalSelection, SelectResults, IsCertain, EvalModule, AreTurns;
    assert Bindings(EvalModule(c, env, use).v).v == turns;
    TurnsAre(c, env, turns, body, rs);
    LoopIs(c, env, selection, ModuleIterator(use), body);
    SelectedIsCertain(c, env, selection, 0, rs);
    CertainIsKept(c, env, selection, 0, rs, Selected(c, EvalSelection(c, env, selection, 0), rs));
  }

  /** Integers and bytes can be bound. */
  predicate IsItem(r: Result, v: ModuleValue) {
    r.Ok? && match r.v
      case Integer(n) => v == MInteger(n)
      case Bytes(s) => v == MBytes(s)
      case _ => false
  }

  lemma {:induction false} SelectAllItems(c: Scan, ev: S.Evaluator, items: seq<Result>, bodies: seq<Result>, n: nat)
    requires |items| == |bodies| && forall j :: 0 <= j < |items| ==> ItemOf(items[j]).Ok?
    ensures SelectItems(c, ev, items, bodies, n) == FromVerdict(S.Select(ev, TrisOf(c, bodies), n))
    decreases |items|
  {
    var ts := TrisOf(c, bodies);
    if items != [] {
      assert ts[1..] == TrisOf(c, bodies[1..]);
      forall ev, n { SelectAllItems(c, ev, items[1..], bodies[1..], n); }
    }
  }

  lemma LoopOnList(c: Scan, env: Env, selection: ForSelection, items: seq<Expr>, body: Expr, vs: seq<ModuleValue>,
                   rs: seq<Result>)
    requires |vs| == |items| == |rs|
    requires forall j :: 0 <= j < |vs| ==> IsItem(Eval(c, env, items[j]), vs[j]) && rs[j] == Turn(c, env, [vs[j]], body)
    ensures IsCertain(c, env, selection, 0, rs, Eval(c, env, ForIdentifiers(selection, List(items), body)))
  {
    hide Eval, EvalSelection, SelectItems, IsCertain, S.Select;
    var values := EvalAll(c, env, items);
    var bodies := EvalBodies(c, env, values, body);
    forall j | 0 <= j < |rs| ensures ItemOf(values[j]) == Ok(vs[j]) && bodies[j] == rs[j] {
      assert IsItem(Eval(c, env, items[j]), vs[j]);
      assert WithBound(env, [vs[j]]) == env.(stack := env.stack + [vs[j]]);
    }
    assert bodies == rs;
    var chosen := EvalSelection(c, env, selection, 0);
    if chosen.Feed? { SelectAllItems(c, chosen.ev, values, bodies, 0); }
    LoopIs(c, env, selection, List(items), body);
    SelectedIsCertain(c, env, selection, 0, rs);
    CertainIsKept(c, env, selection, 0, rs, Selected(c, chosen, rs));
  }

  /** What ends the loop before an item without a value, if anything does. */
  function Early(ev: S.Evaluator, trues: nat, falses: nat): Option<bool> {
    match ev
    case All => if falses > 0 then Some(false) else Option.None
    case None => if trues > 0 then Some(false) else Option.None
    case Number(n) => if trues >= n then Some(true) else Option.None
  }

  lemma {:induction false} SelectStops(c: Scan, ev: S.Evaluator, items: seq<Result>, bodies: seq<Result>, n: nat, i: nat)
    requires |items| == |bodies| && i < |items| && S.Started(ev)
    requires (forall j :: 0 <= j < i ==> ItemOf(items[j]).Ok?) && ItemOf(items[i]).Err?
    ensures var ts := TrisOf(c, bodies[..i]);
            var early := Early(ev, S.CountOf(ts, S.Known(true)), S.CountOf(ts, S.Known(false)));
            SelectItems(c, ev, items, bodies, n) == if early.Some? then Ok(Boolean(early.value)) else Err(ItemOf(items[i]).p)
    decreases i
  {
    var ts := TrisOf(c, bodies[..i]);
    if i > 0 {
      var rest := TrisOf(c, bodies[1..][..i - 1]);
      assert bodies[..i][1..] == bodies[1..][..i - 1];
      assert ts[0] == TriOf(c, bodies[0]) && ts[1..] == rest;
      match TriOf(c, bodies[0])
      case Unknown => SelectStops(c, ev, items[1..], bodies[1..], n + 1, i - 1);
      case Known(b) =>
        var (next, result) := S.AddResult(ev, b);
        if result.None? { SelectStops(c, next, items[1..], bodies[1..], n, i - 1); }
    }
  }

  /** The bodies that are true, and those that are false. */
  function TrueOnes(c: Scan, rs: seq<Result>): set<nat> {
    set j: nat | j < |rs| && IsTrue(c, rs[j])
  }

  function FalseOnes(c: Scan, rs: seq<Result>): set<nat> {
    set j: nat | j < |rs| && IsFalse(c, rs[j])
  }

  /** What a loop answers from the bodies of the items before one without a value, whose poison is `p`: what is certain by
      then, or the poison, which is false unless it waits. */
  function StoppedBy(c: Scan, env: Env, selection: ForSelection, rs: seq<Result>, p: Poison): Result {
    var stop := if p.VarNeeded? then Err(VarNeeded) else Ok(Boolean(false));
    match selection
    case SelectAny => if TrueOnes(c, rs) != {} then Ok(Boolean(true)) else stop
    case SelectAll => if FalseOnes(c, rs) != {} then Ok(Boolean(false)) else stop
    case SelectNone => if TrueOnes(c, rs) != {} then Ok(Boolean(false)) else stop
    case SelectExpr(number, asPercent) =>
      match Eval(c, env, number)
      case Ok(Integer(n)) =>
        if n == 0 && !asPercent then if TrueOnes(c, rs) != {} then Ok(Boolean(false)) else stop
        else if |TrueOnes(c, rs)| >= (if asPercent then c.percentOf(n, 0) else n) then Ok(Boolean(true))
        else stop
      case Err(VarNeeded) => Err(VarNeeded)
      case _ => Ok(Boolean(false))
  }

  function Equal(ts: seq<S.Tri>, k: S.Tri): (bs: seq<bool>)
    ensures |bs| == |ts| && forall j :: 0 <= j < |ts| ==> bs[j] == (ts[j] == k)
  {
    seq(|ts|, j requires 0 <= j < |ts| => ts[j] == k)
  }

  lemma {:induction false} EqualAreCounted(ts: seq<S.Tri>, k: S.Tri)
    ensures S.CountOf(ts, k) == S.CountTrue(Equal(ts, k))
    decreases |ts|
  {
    if ts != [] {
      EqualAreCounted(ts[1..], k);
      assert Equal(ts, k)[1..] == Equal(ts[1..], k);
    }
  }

  lemma OnesAreCounted(c: Scan, rs: seq<Result>)
    ensures S.CountOf(TrisOf(c, rs), S.Known(true)) == |TrueOnes(c, rs)|
    ensures S.CountOf(TrisOf(c, rs), S.Known(false)) == |FalseOnes(c, rs)|
  {
    var ts := TrisOf(c, rs);
    var yes, no := Equal(ts, S.Known(true)), Equal(ts, S.Known(false));
    EqualAreCounted(ts, S.Known(true));
    EqualAreCounted(ts, S.Known(false));
    S.TruesAreCounted(yes);
    S.TruesAreCounted(no);
    assert S.Trues(yes) == TrueOnes(c, rs) && S.Trues(no) == FalseOnes(c, rs);
  }

  /** An item without a value ends the loop. */
  lemma ListStops(c: Scan, env: Env, selection: ForSelection, items: seq<Expr>, body: Expr, i: nat, vs: seq<ModuleValue>,
                  rs: seq<Result>, p: Poison)
    requires i < |items| && |vs| == |rs| == i && Eval(c, env, items[i]) == Err(p)
    requires forall j :: 0 <= j < i ==> IsItem(Eval(c, env, items[j]), vs[j]) && rs[j] == Turn(c, env, [vs[j]], body)
    ensures Eval(c, env, ForIdentifiers(selection, List(items), body)) == StoppedBy(c, env, selection, rs, p)
  {
    hide Eval, SelectItems, TrueOnes, FalseOnes, S.CountOf;
    var values := EvalAll(c, env, items);
    var bodies := EvalBodies(c, env, values, body);
    ItemsBefore(c, env, items, body, i, vs, rs, values, bodies);
    var chosen := EvalSelection(c, env, selection, 0);
    LoopIs(c, env, selection, List(items), body);
    StoppedIs(c, env, selection, rs, p);
    if chosen.Feed? { SelectStops(c, chosen.ev, values, bodies, 0, i); }
  }

  lemma ItemsBefore(c: Scan, env: Env, items: seq<Expr>, body: Expr, i: nat, vs: seq<ModuleValue>, rs: seq<Result>,
                    values: seq<Result>, bodies: seq<Result>)
    requires i <= |items| && |vs| == |rs| == i
    requires values == EvalAll(c, env, items) && bodies == EvalBodies(c, env, values, body)
    requires forall j :: 0 <= j < i ==> IsItem(Eval(c, env, items[j]), vs[j]) && rs[j] == Turn(c, env, [vs[j]], body)
    ensures bodies[..i] == rs && forall j :: 0 <= j < i ==> ItemOf(values[j]) == Ok(vs[j])
  {
    hide Eval;
    forall j | 0 <= j < i ensures ItemOf(values[j]) == Ok(vs[j]) && bodies[j] == rs[j] {
      assert IsItem(Eval(c, env, items[j]), vs[j]);
      assert WithBound(env, [vs[j]]) == env.(stack := env.stack + [vs[j]]);
    }
  }

  lemma StoppedIs(c: Scan, env: Env, selection: ForSelection, rs: seq<Result>, p: Poison)
    ensures StoppedBy(c, env, selection, rs, p) ==
            match EvalSelection(c, env, selection, 0)
            case Value(r) => r
            case Feed(ev) =>
              var ts := TrisOf(c, rs);
              var early := Early(ev, S.CountOf(ts, S.Known(true)), S.CountOf(ts, S.Known(false)));
              if early.Some? then Ok(Boolean(early.value)) else UndefinedIsFalse(Err(p))
    ensures EvalSelection(c, env, selection, 0).Feed? ==> S.Started(EvalSelection(c, env, selection, 0).ev)
  {
    hide Eval, TrueOnes, FalseOnes, S.CountOf;
    OnesAreCounted(c, rs);
  }

  // ----- Rules -----

  /** A set of rules stands for the rules that matched already, and the verdicts of the others. */
  lemma LoopOnRules(c: Scan, env: Env, selection: ForSelection, ruleSet: seq<nat>, alreadyMatched: nat, bs: seq<bool>)
    requires |bs| == alreadyMatched + |ruleSet| && forall j :: 0 <= j < alreadyMatched ==> bs[j]
    requires forall j :: 0 <= j < |ruleSet| ==> ruleSet[j] < |c.rules| && bs[alreadyMatched + j] == c.rules[ruleSet[j]]
    ensures Eval(c, env, ForRules(selection, ruleSet, alreadyMatched)) == Verdict(c, env, selection, |bs|, bs)
  {
    hide EvalSelection, Apply, S.Select;
    var ts := RuleTris(c, ruleSet, alreadyMatched);
    var chosen := EvalSelection(c, env, selection, |bs|);
    MeetsIsVerdict(c, env, selection, |bs|, bs);
    if chosen.Feed? {
      forall j | 0 <= j < |bs| ensures ts[j] == S.Known(bs[j]) {
        if j >= alreadyMatched { assert bs[alreadyMatched + (j - alreadyMatched)] == c.rules[ruleSet[j - alreadyMatched]]; }
      }
      assert forall bs' :: S.Completion(ts, bs') ==> bs' == bs;
      S.SelectIsCertain(chosen.ev, ts, S.Meets(chosen.ev, bs));
    }
  }

  // ----- Module values -----

  /** The same value, for conditions and for modules. */
  predicate Same(v: Value, m: ModuleValue) {
    match v
    case Integer(n) => m == MInteger(n)
    case Floating(f) => m == MFloat(f)
    case Bytes(s) => m == MBytes(s)
    case Regex(id) => m == MRegex(id)
    case Boolean(b) => m == MBoolean(b)
  }

  predicate AllSame(vs: seq<Value>, ms: seq<ModuleValue>) {
    |ms| == |vs| && forall j :: 0 <= j < |vs| ==> Same(vs[j], ms[j])
  }

  /** The first entry with this key is the `j`th. */
  predicate FirstAt(entries: seq<(bytes, ModuleValue)>, key: bytes, j: nat) {
    j < |entries| && entries[j].0 == key && forall i :: 0 <= i < j ==> entries[i].0 != key
  }

  /** One step leads from a value to another. */
  ghost predicate StepTo(c: Scan, v: ModuleValue, op: Op, args: seq<Value>, w: ModuleValue) {
    match op
    case Subfield(name) => v.Object? && name in v.fields && w == v.fields[name]
    case Subscript =>
      |args| == 1 &&
      (|| (v.Array? && args[0].Integer? && 0 <= args[0].n < |v.values| && w == v.values[args[0].n])
       || (v.Dictionary? && args[0].Bytes? && exists j: nat :: FirstAt(v.entries, args[0].s, j) && w == v.entries[j].1))
    case Call(_) => v.Function? && exists ms :: AllSame(args, ms) && c.call(v.id, ms) == Some(w)
  }

  /** How many arguments a step takes. */
  function Takes(op: Op): nat {
    if op.Subfield? then 0 else if op.Subscript? then 1 else op.nbArguments
  }

  /** The steps lead from a value to another, each taking its arguments in turn. */
  ghost predicate WayTo(c: Scan, v: ModuleValue, ops: seq<Op>, args: seq<Value>, w: ModuleValue)
    decreases ops
  {
    if ops == [] then v == w
    else
      var n := Takes(ops[0]);
      n <= |args| && exists x :: StepTo(c, v, ops[0], args[..n], x) && WayTo(c, x, ops[1..], args[n..], w)
  }

  lemma {:induction false} LookupIsFirst(entries: seq<(bytes, ModuleValue)>, key: bytes, w: ModuleValue)
    ensures Lookup(entries, key) == Ok(w) <==> exists j: nat :: FirstAt(entries, key, j) && w == entries[j].1
    decreases |entries|
  {
    if entries != [] {
      LookupIsFirst(entries[1..], key, w);
      assert forall i :: 0 <= i < |entries| - 1 ==> entries[1..][i] == entries[i + 1];
      if entries[0].0 == key { assert FirstAt(entries, key, 0); }
      if j: nat :| FirstAt(entries[1..], key, j) && w == entries[1..][j].1 {
        if entries[0].0 != key {
          assert forall i :: 0 < i < j + 1 ==> entries[i] == entries[1..][i - 1];
          assert FirstAt(entries, key, j + 1);
        }
      }
      if j: nat :| FirstAt(entries, key, j) && w == entries[j].1 {
        if j > 0 {
          assert forall i :: 0 <= i < j - 1 ==> entries[1..][i] == entries[i + 1];
          assert FirstAt(entries[1..], key, j - 1);
        }
      }
    }
  }

  lemma ModuleForms(vs: seq<Value>, ms: seq<ModuleValue>)
    ensures AllSame(vs, ms) <==> ms == ToModules(vs)
  {
    if AllSame(vs, ms) {
      forall j | 0 <= j < |vs| ensures ms[j] == ToModules(vs)[j] { assert Same(vs[j], ms[j]); }
    }
  }

  lemma StepIs(c: Scan, v: ModuleValue, op: Op, args: seq<Value>, w: ModuleValue)
    requires |args| == ArgumentCount(op)
    ensures EvalOp(c, v, op, args) == Ok(w) <==> StepTo(c, v, op, args, w)
  {
    hide Lookup, FirstAt, AllSame, ToModules;
    if v.Dictionary? && op.Subscript? && args[0].Bytes? { LookupIsFirst(v.entries, args[0].s, w); }
    forall ms { ModuleForms(args, ms); }
    if op.Call? { assert AllSame(args, ToModules(args)); }
  }

  lemma {:induction false} WayIs(c: Scan, v: ModuleValue, ops: seq<Op>, args: seq<Value>, w: ModuleValue)
    ensures EvalOps(c, v, ops, args) == Ok(w) <==> WayTo(c, v, ops, args, w)
    decreases |ops|
  {
    hide EvalOp, StepTo;
    if ops != [] {
      var n := Takes(ops[0]);
      if n <= |args| {
        forall x ensures EvalOp(c, v, ops[0], args[..n]) == Ok(x) <==> StepTo(c, v, ops[0], args[..n], x) {
          StepIs(c, v, ops[0], args[..n], x);
        }
        var r := EvalOp(c, v, ops[0], args[..n]);
        if r.Ok? { WayIs(c, r.v, ops[1..], args[n..], w); }
      }
    }
  }

  predicate StartsAt(c: Scan, env: Env, use: ModuleExpr, start: ModuleValue) {
    match use.kind
    case ModuleValueAt(i) => i < |c.modules| && start == c.modules[i]
    case BoundedStack(i) => i < |env.stack| && start == env.stack[i]
    case StaticFunction(id) => use.ops != [] && use.ops[0].Call? && start == Function(id)
  }

  predicate AreArguments(c: Scan, env: Env, es: seq<Expr>, args: seq<Value>) {
    |args| == |es| && forall j :: 0 <= j < |args| ==> Eval(c, env, es[j]) == Ok(args[j])
  }

  lemma {:induction false} CollectIs(rs: seq<Result>, vs: seq<Value>)
    ensures Collect(rs) == Ok(vs) <==> |rs| == |vs| && forall j :: 0 <= j < |vs| ==> rs[j] == Ok(vs[j])
    decreases |rs|
  {
    if rs != [] {
      forall vs' { CollectIs(rs[1..], vs'); }
      if vs != [] { assert vs == [vs[0]] + vs[1..]; }
    }
  }

  ghost predicate ModuleLeads(c: Scan, env: Env, use: ModuleExpr, w: ModuleValue) {
    exists start, args :: AreArguments(c, env, use.arguments, args) && StartsAt(c, env, use, start) && WayTo(c, start, use.ops, args, w)
  }

  lemma ArgumentsAre(c: Scan, env: Env, es: seq<Expr>, args: seq<Value>)
    ensures Collect(EvalAll(c, env, es)) == Ok(args) <==> AreArguments(c, env, es, args)
  {
    hide Eval, Collect;
    CollectIs(EvalAll(c, env, es), args);
  }

  lemma ModuleIs(c: Scan, env: Env, use: ModuleExpr, w: ModuleValue)
    ensures EvalModule(c, env, use) == Ok(w) <==> ModuleLeads(c, env, use, w)
  {
    hide Eval, EvalOps, WayTo, AreArguments, Collect;
    forall args { ArgumentsAre(c, env, use.arguments, args); }
    forall start, args { WayIs(c, start, use.ops, args, w); }
    var args := Collect(EvalAll(c, env, use.arguments));
    if args.Ok? { assert AreArguments(c, env, use.arguments, args.v); }
  }

  /** A module expression has a value when its arguments do, its path leads from its start to a scalar, and that is not a
      double that is no number. */
  lemma ModuleValues(c: Scan, env: Env, use: ModuleExpr, x: Value)
    ensures Eval(c, env, Module(use)) == Ok(x)
            <==> exists w :: ModuleLeads(c, env, use, w) && Same(x, w) && !(w.MFloat? && c.isNan(w.f))
  {
    hide ModuleLeads, EvalModule, Apply;
    forall w { ModuleIs(c, env, use, w); }
    var v := EvalModule(c, env, use);
    assert Eval(c, env, Module(use)) == if v.Err? then Err(v.p) else FromModule(c, v.v);
  }
}
