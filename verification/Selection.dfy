/** The selection of a `for` expression (`ForSelectionEvaluator` in `evaluator/mod.rs`). */
module Selection {
  import opened Base

  /** `Number(n)`: at least `n` more of the results must be true. */
  datatype Evaluator = All | None | Number(n: nat)

  /** The result of one evaluation of the body. `Unknown` is one that needs the matches of the variables. */
  datatype Tri = Known(b: bool) | Unknown

  /** The verdict on the whole: a boolean, or the need for the matches. */
  datatype Verdict = Decided(b: bool) | VarNeeded

  function AddResult(ev: Evaluator, matched: bool): (Evaluator, Option<bool>) {
    match ev
    case All => (ev, if matched then Option.None else Some(false))
    case None => (ev, if matched then Some(false) else Option.None)
    case Number(n) =>
      if matched then
        var left := if n == 0 then 0 else n - 1;
        (Number(left), if left == 0 then Some(true) else Option.None)
      else (ev, Option.None)
  }

  function End(ev: Evaluator, nbVarsNeeded: nat): Verdict {
    match ev
    case Number(n) => if nbVarsNeeded >= n then VarNeeded else Decided(false)
    case _ => if nbVarsNeeded > 0 then VarNeeded else Decided(true)
  }

  /** The loop over the results, with its early exit. */
  function Select(ev: Evaluator, results: seq<Tri>, nbVarsNeeded: nat): Verdict
    decreases results
  {
    if results == [] then End(ev, nbVarsNeeded)
    else
      match results[0]
      case Unknown => Select(ev, results[1..], nbVarsNeeded + 1)
      case Known(b) =>
        var (next, result) := AddResult(ev, b);
        if result.Some? then Decided(result.value) else Select(next, results[1..], nbVarsNeeded)
  }

  // ----- The meaning: the certain answer -----

  /** Does a list of booleans meet the selection? */
  predicate Meets(ev: Evaluator, bs: seq<bool>) {
    match ev
    case All => false !in bs
    case None => true !in bs
    case Number(n) => CountTrue(bs) >= n
  }

  function CountTrue(bs: seq<bool>): nat {
    if bs == [] then 0 else (if bs[0] then 1 else 0) + CountTrue(bs[1..])
  }

  /** Which of these are true. */
  function Trues(bs: seq<bool>): set<nat> {
    set j: nat | j < |bs| && bs[j]
  }

  lemma LastTrue(bs: seq<bool>, b: bool)
    ensures |Trues(bs + [b])| == |Trues(bs)| + if b then 1 else 0
  {
    var before, all := Trues(bs), Trues(bs + [b]);
    var last: set<nat> := if b then {|bs|} else {};
    forall j: nat ensures j in all <==> j in before || j in last { if j < |bs| { assert (bs + [b])[j] == bs[j]; } }
    assert all == before + last && before !! last;
  }

  lemma {:induction false} TruesAreCounted(bs: seq<bool>)
    ensures CountTrue(bs) == |Trues(bs)|
    decreases |bs|
  {
    if bs == [] {
      assert Trues(bs) == {};
    } else {
      var last := |bs| - 1;
      TruesAreCounted(bs[..last]);
      LastTrue(bs[..last], bs[last]);
      CountTrueAppend(bs[..last], bs[last]);
      assert bs == bs[..last] + [bs[last]];
    }
  }

  lemma {:induction false} CountTrueAppend(bs: seq<bool>, b: bool)
    ensures CountTrue(bs + [b]) == CountTrue(bs) + if b then 1 else 0
    decreases |bs|
  {
    if bs == [] {
      assert [] + [b] == [b] && [b][1..] == [];
    } else {
      assert (bs + [b])[1..] == bs[1..] + [b];
      CountTrueAppend(bs[1..], b);
    }
  }

  /** The unknown results replaced by any booleans. */
  ghost predicate Completion(results: seq<Tri>, bs: seq<bool>) {
    |bs| == |results| && forall k :: 0 <= k < |bs| ==> results[k] == Known(bs[k]) || results[k].Unknown?
  }

  function Fill(results: seq<Tri>, b: bool): (bs: seq<bool>)
    ensures |bs| == |results|
    ensures forall k :: 0 <= k < |bs| ==> bs[k] == if results[k].Unknown? then b else results[k].b
  {
    seq(|results|, k requires 0 <= k < |results| => if results[k].Unknown? then b else results[k].b)
  }

  /** How many results are of each kind: all that the verdict depends on. */
  function CountOf(results: seq<Tri>, r: Tri): nat {
    if results == [] then 0 else (if results[0] == r then 1 else 0) + CountOf(results[1..], r)
  }

  /** A threshold of zero never reaches the loop: it is decided, or turned into `None`, beforehand. */
  predicate Started(ev: Evaluator) {
    ev.Number? ==> ev.n > 0
  }

  /** The verdict from the numbers of true, false and unknown results. */
  function ByCounts(ev: Evaluator, trues: nat, falses: nat, unknowns: nat): Verdict {
    match ev
    case All => if falses > 0 then Decided(false) else if unknowns > 0 then VarNeeded else Decided(true)
    case None => if trues > 0 then Decided(false) else if unknowns > 0 then VarNeeded else Decided(true)
    case Number(n) => if trues >= n then Decided(true) else if trues + unknowns >= n then VarNeeded else Decided(false)
  }

  lemma {:induction false} SelectByCounts(ev: Evaluator, results: seq<Tri>, nbVarsNeeded: nat)
    requires Started(ev)
    ensures Select(ev, results, nbVarsNeeded)
         == ByCounts(ev, CountOf(results, Known(true)), CountOf(results, Known(false)),
                     nbVarsNeeded + CountOf(results, Unknown))
    decreases |results|
  {
    if results != [] {
      match results[0]
      case Unknown => SelectByCounts(ev, results[1..], nbVarsNeeded + 1);
      case Known(b) =>
        var (next, result) := AddResult(ev, b);
        if result.None? { SelectByCounts(next, results[1..], nbVarsNeeded); }
    }
  }

  lemma {:induction false} CompletionCounts(results: seq<Tri>, bs: seq<bool>)
    requires Completion(results, bs)
    ensures CountOf(results, Known(true)) <= CountTrue(bs) <= CountOf(results, Known(true)) + CountOf(results, Unknown)
    ensures CountOf(results, Known(false)) > 0 ==> false in bs
    ensures CountOf(results, Known(true)) > 0 ==> true in bs
    ensures CountOf(results, Known(false)) == 0 && CountOf(results, Unknown) == 0 ==> false !in bs
    ensures CountOf(results, Known(true)) == 0 && CountOf(results, Unknown) == 0 ==> true !in bs
    decreases |results|
  {
    if results != [] {
      CompletionCounts(results[1..], bs[1..]);
      assert bs == [bs[0]] + bs[1..];
    }
  }

  lemma {:induction false} FillCounts(results: seq<Tri>, b: bool)
    ensures CountTrue(Fill(results, b)) == CountOf(results, Known(true)) + if b then CountOf(results, Unknown) else 0
    ensures CountOf(results, Unknown) > 0 ==> b in Fill(results, b)
    ensures CountOf(results, Known(!b)) == 0 ==> (!b) !in Fill(results, b)
    decreases |results|
  {
    var bs := Fill(results, b);
    if results != [] {
      FillCounts(results[1..], b);
      assert bs[1..] == Fill(results[1..], b) && bs == [bs[0]] + bs[1..];
    }
  }

  /** The early exit never changes the answer: the verdict is a boolean exactly when every completion of the unknown
      results gives that boolean, and the need for matches otherwise. */
  lemma SelectIsCertain(ev: Evaluator, results: seq<Tri>, b: bool)
    requires Started(ev)
    ensures Select(ev, results, 0) == Decided(b) <==> forall bs :: Completion(results, bs) ==> Meets(ev, bs) == b
  {
    SelectByCounts(ev, results, 0);
    forall bs | Completion(results, bs) ensures Select(ev, results, 0) == Decided(b) ==> Meets(ev, bs) == b {
      CompletionCounts(results, bs);
    }
    var none, all := Fill(results, false), Fill(results, true);
    assert Completion(results, none) && Completion(results, all);
    FillCounts(results, false);
    FillCounts(results, true);
    CompletionCounts(results, none);
    CompletionCounts(results, all);
    if Select(ev, results, 0).VarNeeded? { assert Meets(ev, none) != Meets(ev, all); }
  }

  lemma {:induction false} CountIsMultiplicity(results: seq<Tri>, r: Tri)
    ensures CountOf(results, r) == multiset(results)[r]
  {
    if results != [] {
      CountIsMultiplicity(results[1..], r);
      assert results == [results[0]] + results[1..];
    }
  }

  /** The order of the results plays no part, so that iterating over a hash map is fine. */
  lemma SelectAnyOrder(ev: Evaluator, xs: seq<Tri>, ys: seq<Tri>)
    requires Started(ev) && multiset(xs) == multiset(ys)
    ensures Select(ev, xs, 0) == Select(ev, ys, 0)
  {
    SelectByCounts(ev, xs, 0);
    SelectByCounts(ev, ys, 0);
    forall r: Tri ensures CountOf(xs, r) == CountOf(ys, r) {
      CountIsMultiplicity(xs, r);
      CountIsMultiplicity(ys, r);
    }
  }

  /** More is known: a result that was unknown may become anything. */
  predicate Refines(x: Tri, y: Tri) {
    x.Unknown? || x == y
  }

  /** A boolean verdict stays when more is known. */
  lemma {:induction false} SelectMonotone(ev: Evaluator, xs: seq<Tri>, ys: seq<Tri>)
    requires Started(ev) && |xs| == |ys| && forall k :: 0 <= k < |xs| ==> Refines(xs[k], ys[k])
    ensures Select(ev, xs, 0).VarNeeded? || Select(ev, xs, 0) == Select(ev, ys, 0)
  {
    if Select(ev, xs, 0).Decided? {
      var b := Select(ev, xs, 0).b;
      SelectIsCertain(ev, xs, b);
      forall bs | Completion(ys, bs) ensures Meets(ev, bs) == b { assert Completion(xs, bs); }
      SelectIsCertain(ev, ys, b);
    }
  }
}
