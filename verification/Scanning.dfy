/** A scan (`scanner/mod.rs`): a pass over all the rules without the matches of their variables and, when that one does
    not decide them all, a full pass. */
module Scanning {
  import opened Base
  import opened Values
  import opened VarMatches
  import opened Expressions
  import opened Agreement

  datatype ScanRule = ScanRule(condition: Expr, isPrivate: bool)

  /** A rule that is reported as matching: a global one or another one, by its position. */
  datatype Reported = GlobalRule(i: nat) | NormalRule(i: nat)

  /** What a loop over rules ends with: the scan is over, or the matches are needed, or the rules that come next are to
      be evaluated. */
  datatype Outcome = Over(reported: seq<Reported>) | MatchesNeeded | Next(reported: seq<Reported>)

  type Matches = seq<seq<StringMatch>>

  /** The scan as a rule sees it: with the results of the rules before it. */
  function WithResults(c: Scan, previous: seq<bool>): Scan {
    c.(rules := previous)
  }

  /** A private rule is not reported. */
  function Report(rule: ScanRule, matched: bool, who: Reported): seq<Reported> {
    if matched && !rule.isPrivate then [who] else []
  }

  // ----- The pass without matches -----

  /** `evaluate_without_matches`, global rules: a false one ends the scan, even when others are not decided. */
  function FirstGlobals(c: Scan, globals: seq<ScanRule>, i: nat, reported: seq<Reported>, unknown: bool): Outcome
    requires i <= |globals|
    decreases |globals| - i
  {
    if i == |globals| then if unknown then MatchesNeeded else Next(reported)
    else
      match RuleVerdict(WithResults(c, []), globals[i].condition, None)
      case None => FirstGlobals(c, globals, i + 1, reported, true)
      case Some(matched) =>
        if matched then FirstGlobals(c, globals, i + 1, reported + Report(globals[i], true, GlobalRule(i)), unknown)
        else Over(reported)
  }

  /** The other rules: one that is not decided ends the pass. */
  function FirstRules(c: Scan, rules: seq<ScanRule>, i: nat, previous: seq<bool>, reported: seq<Reported>): Outcome
    requires i <= |rules|
    decreases |rules| - i
  {
    if i == |rules| then Over(reported)
    else
      match RuleVerdict(WithResults(c, previous), rules[i].condition, None)
      case None => MatchesNeeded
      case Some(matched) =>
        FirstRules(c, rules, i + 1, previous + [matched], reported + Report(rules[i], matched, NormalRule(i)))
  }

  function FirstPass(c: Scan, globals: seq<ScanRule>, rules: seq<ScanRule>): Outcome {
    var o := FirstGlobals(c, globals, 0, [], false);
    if o.Next? then FirstRules(c, rules, 0, [], o.reported) else o
  }

  // ----- The full pass -----

  predicate Matched(c: Scan, rule: ScanRule, matches: Matches) {
    RuleVerdict(c, rule.condition, Some(matches)) == Some(true)
  }

  /** Global rules: a false one ends the scan, and nothing is reported. */
  function FullGlobals(c: Scan, globals: seq<ScanRule>, matches: seq<Matches>, i: nat, reported: seq<Reported>): Outcome
    requires i <= |globals| == |matches|
    decreases |globals| - i
  {
    if i == |globals| then Next(reported)
    else if Matched(WithResults(c, []), globals[i], matches[i]) then
      FullGlobals(c, globals, matches, i + 1, reported + Report(globals[i], true, GlobalRule(i)))
    else Over([])
  }

  function FullRules(c: Scan, rules: seq<ScanRule>, matches: seq<Matches>, i: nat, previous: seq<bool>,
                     reported: seq<Reported>): Outcome
    requires i <= |rules| == |matches|
    decreases |rules| - i
  {
    if i == |rules| then Over(reported)
    else
      var matched := Matched(WithResults(c, previous), rules[i], matches[i]);
      FullRules(c, rules, matches, i + 1, previous + [matched], reported + Report(rules[i], matched, NormalRule(i)))
  }

  function FullPass(c: Scan, globals: seq<ScanRule>, rules: seq<ScanRule>, globalMatches: seq<Matches>,
                    ruleMatches: seq<Matches>): Outcome
    requires |globals| == |globalMatches| && |rules| == |ruleMatches|
  {
    var o := FullGlobals(c, globals, globalMatches, 0, []);
    if o.Next? then FullRules(c, rules, ruleMatches, 0, [], o.reported) else o
  }

  // ----- Which rules are reported -----

  /** The place of a rule: the global ones come first. */
  function Place(nbGlobals: nat, who: Reported): nat {
    if who.GlobalRule? then who.i else nbGlobals + who.i
  }

  predicate InOrder(nbGlobals: nat, reported: seq<Reported>) {
    forall i, j :: 0 <= i < j < |reported| ==> Place(nbGlobals, reported[i]) < Place(nbGlobals, reported[j])
  }

  predicate Before(nbGlobals: nat, reported: seq<Reported>, place: nat) {
    InOrder(nbGlobals, reported) && forall j :: 0 <= j < |reported| ==> Place(nbGlobals, reported[j]) < place
  }

  /** The rules reported are the public global ones with a true verdict, and the public others with one. */
  ghost predicate AreReported(globals: seq<ScanRule>, truths: seq<bool>, rules: seq<ScanRule>, results: seq<bool>,
                        reported: seq<Reported>)
  {
    && InOrder(|globals|, reported)
    && (forall i: nat :: GlobalRule(i) in reported <==> i < |globals| && i < |truths| && truths[i] && !globals[i].isPrivate)
    && (forall i: nat :: NormalRule(i) in reported <==> i < |rules| && i < |results| && results[i] && !rules[i].isPrivate)
  }

  /** The results of the rules with these matches, each evaluated with the results of the rules before it. */
  predicate AreResults(c: Scan, rules: seq<ScanRule>, matches: seq<Matches>, results: seq<bool>)
    requires |rules| == |matches|
  {
    && |results| <= |rules|
    && forall i :: 0 <= i < |results| ==> results[i] == Matched(WithResults(c, results[..i]), rules[i], matches[i])
  }

  /** All the global rules match. */
  predicate GlobalsMatch(c: Scan, globals: seq<ScanRule>, matches: seq<Matches>)
    requires |globals| == |matches|
  {
    forall i :: 0 <= i < |globals| ==> Matched(WithResults(c, []), globals[i], matches[i])
  }

  function AllTrue(n: nat): (bs: seq<bool>)
    ensures |bs| == n && forall j :: 0 <= j < n ==> bs[j]
  {
    seq(n, _ => true)
  }

  lemma ReportKeeps(nbGlobals: nat, reported: seq<Reported>, rule: ScanRule, matched: bool, who: Reported)
    requires Before(nbGlobals, reported, Place(nbGlobals, who))
    ensures var next := reported + Report(rule, matched, who);
            && Before(nbGlobals, next, Place(nbGlobals, who) + 1)
            && (forall w :: w in next <==> w in reported || (w == who && matched && !rule.isPrivate))
  {
  }

  lemma {:induction false} GlobalsReported(c: Scan, globals: seq<ScanRule>, matches: seq<Matches>, i: nat,
                                           reported: seq<Reported>)
    requires i <= |globals| == |matches| && Before(|globals|, reported, i)
    requires AreReported(globals, AllTrue(i), [], [], reported)
    requires forall j :: 0 <= j < i ==> Matched(WithResults(c, []), globals[j], matches[j])
    ensures var o := FullGlobals(c, globals, matches, i, reported);
            if GlobalsMatch(c, globals, matches) then
              && o.Next? && Before(|globals|, o.reported, |globals|)
              && AreReported(globals, AllTrue(|globals|), [], [], o.reported)
            else o == Over([])
    decreases |globals| - i
  {
    hide Matched;
    if i < |globals| && Matched(WithResults(c, []), globals[i], matches[i]) {
      ReportKeeps(|globals|, reported, globals[i], true, GlobalRule(i));
      hide Before, InOrder;
      GlobalsReported(c, globals, matches, i + 1, reported + Report(globals[i], true, GlobalRule(i)));
    }
  }

  lemma {:induction false} RulesReported(c: Scan, globals: seq<ScanRule>, truths: seq<bool>, rules: seq<ScanRule>,
                                         matches: seq<Matches>, i: nat, previous: seq<bool>, reported: seq<Reported>)
      returns (results: seq<bool>)
    requires |previous| == i <= |rules| == |matches| && AreResults(c, rules, matches, previous)
    requires Before(|globals|, reported, |globals| + i) && AreReported(globals, truths, rules, previous, reported)
    ensures |results| == |rules| && AreResults(c, rules, matches, results)
    ensures var o := FullRules(c, rules, matches, i, previous, reported);
            o.Over? && AreReported(globals, truths, rules, results, o.reported)
    decreases |rules| - i
  {
    hide Matched;
    if i == |rules| {
      results := previous;
    } else {
      var matched := Matched(WithResults(c, previous), rules[i], matches[i]);
      var next, shown := previous + [matched], reported + Report(rules[i], matched, NormalRule(i));
      assert next[..i] == previous && forall j :: 0 <= j < i ==> next[..j] == previous[..j];
      ReportKeeps(|globals|, reported, rules[i], matched, NormalRule(i));
      ResultsShown(globals, truths, rules, previous, matched, reported, shown);
      hide AreReported, Before, AreResults;
      results := RulesReported(c, globals, truths, rules, matches, i + 1, next, shown);
    }
  }

  lemma ResultsShown(globals: seq<ScanRule>, truths: seq<bool>, rules: seq<ScanRule>, previous: seq<bool>, matched: bool,
                     reported: seq<Reported>, shown: seq<Reported>)
    requires |previous| < |rules| && AreReported(globals, truths, rules, previous, reported)
    requires InOrder(|globals|, shown)
    requires var i := |previous|; forall w :: w in shown <==>
               w in reported || (w == NormalRule(i) && matched && !rules[i].isPrivate)
    ensures AreReported(globals, truths, rules, previous + [matched], shown)
  {
    hide InOrder;
  }

  /** The full pass reports nothing when a global rule does not match, and otherwise every public rule that does, in order,
      each evaluated with the results of those before it. */
  lemma FullPassIs(c: Scan, globals: seq<ScanRule>, rules: seq<ScanRule>, globalMatches: seq<Matches>,
                   ruleMatches: seq<Matches>) returns (results: seq<bool>)
    requires |globals| == |globalMatches| && |rules| == |ruleMatches|
    ensures var o := FullPass(c, globals, rules, globalMatches, ruleMatches);
            o.Over? && FullPassSays(c, globals, rules, globalMatches, ruleMatches, results, o.reported)
  {
    hide Matched;
    GlobalsReported(c, globals, globalMatches, 0, []);
    var o := FullGlobals(c, globals, globalMatches, 0, []);
    if o.Next? {
      results := RulesReported(c, globals, AllTrue(|globals|), rules, ruleMatches, 0, [], o.reported);
    } else {
      results := RulesReported(c, [], [], rules, ruleMatches, 0, [], []);
    }
  }

  /** The verdict without matches, after these results. */
  function Early(c: Scan, previous: seq<bool>, rule: ScanRule): Option<bool> {
    RuleVerdict(WithResults(c, previous), rule.condition, None)
  }

  /** Is this verdict known, and what it says? */
  predicate Says(verdict: Option<bool>, b: bool) {
    verdict.Some? && verdict.value == b
  }

  predicate AreDecided(c: Scan, rules: seq<ScanRule>, results: seq<bool>) {
    |results| <= |rules| && forall i :: 0 <= i < |results| ==> Says(Early(c, results[..i], rules[i]), results[i])
  }

  /** The global rules known to match, up to the first known not to. */
  predicate AreTruths(c: Scan, globals: seq<ScanRule>, truths: seq<bool>) {
    && |truths| <= |globals|
    && (forall i :: 0 <= i < |truths| ==>
          !Says(Early(c, [], globals[i]), false) && truths[i] == Says(Early(c, [], globals[i]), true))
    && (|truths| < |globals| ==> Says(Early(c, [], globals[|truths|]), false))
  }

  lemma TruthsShown(globals: seq<ScanRule>, truths: seq<bool>, b: bool, reported: seq<Reported>, shown: seq<Reported>)
    requires |truths| < |globals| && AreReported(globals, truths, [], [], reported) && InOrder(|globals|, shown)
    requires var i := |truths|; forall w :: w in shown <==> w in reported || (w == GlobalRule(i) && b && !globals[i].isPrivate)
    ensures AreReported(globals, truths + [b], [], [], shown)
  {
    hide InOrder;
  }

  lemma {:induction false} FirstGlobalsReported(c: Scan, globals: seq<ScanRule>, i: nat, reported: seq<Reported>,
                                                unknown: bool, before: seq<bool>) returns (truths: seq<bool>)
    requires |before| == i <= |globals| && Before(|globals|, reported, i)
    requires AreReported(globals, before, [], [], reported) && (unknown <==> false in before)
    requires forall j :: 0 <= j < i ==>
               !Says(Early(c, [], globals[j]), false) && before[j] == Says(Early(c, [], globals[j]), true)
    ensures AreTruths(c, globals, truths)
    ensures var o := FirstGlobals(c, globals, i, reported, unknown);
            if |truths| < |globals| then o.Over? && AreReported(globals, truths, [], [], o.reported)
            else if false in truths then o.MatchesNeeded?
            else o.Next? && Before(|globals|, o.reported, |globals|) && AreReported(globals, truths, [], [], o.reported)
    decreases |globals| - i
  {
    hide RuleVerdict;
    if i == |globals| || Says(Early(c, [], globals[i]), false) {
      truths := before;
    } else {
      var b := Early(c, [], globals[i]).Some?;
      var shown := reported + Report(globals[i], b, GlobalRule(i));
      ReportKeeps(|globals|, reported, globals[i], b, GlobalRule(i));
      TruthsShown(globals, before, b, reported, shown);
      assert !b ==> shown == reported;
      var now := before + [b];
      assert now[i] == b && (false in now <==> unknown || !b);
      forall j | 0 <= j < i + 1
        ensures !Says(Early(c, [], globals[j]), false) && now[j] == Says(Early(c, [], globals[j]), true)
      {
        if j < i { assert now[j] == before[j]; }
      }
      hide Before, AreReported, InOrder, Report;
      truths := FirstGlobalsReported(c, globals, i + 1, shown, unknown || !b, now);
    }
  }

  lemma {:induction false} FirstRulesReported(c: Scan, globals: seq<ScanRule>, truths: seq<bool>, rules: seq<ScanRule>, i: nat,
                                              previous: seq<bool>, reported: seq<Reported>) returns (results: seq<bool>)
    requires |previous| == i <= |rules| && AreDecided(c, rules, previous)
    requires Before(|globals|, reported, |globals| + i) && AreReported(globals, truths, rules, previous, reported)
    ensures AreDecided(c, rules, results)
    ensures var o := FirstRules(c, rules, i, previous, reported);
            if |results| < |rules| then o.MatchesNeeded? && Early(c, results, rules[|results|]).None?
            else o.Over? && AreReported(globals, truths, rules, results, o.reported)
    decreases |rules| - i
  {
    hide RuleVerdict;
    if i == |rules| || Early(c, previous, rules[i]).None? {
      results := previous;
    } else {
      var matched := Early(c, previous, rules[i]).value;
      var next, shown := previous + [matched], reported + Report(rules[i], matched, NormalRule(i));
      assert next[..i] == previous && forall j :: 0 <= j < i ==> next[..j] == previous[..j];
      ReportKeeps(|globals|, reported, rules[i], matched, NormalRule(i));
      ResultsShown(globals, truths, rules, previous, matched, reported, shown);
      hide AreReported, Before, AreDecided;
      results := FirstRulesReported(c, globals, truths, rules, i + 1, next, shown);
    }
  }

  /** The pass without matches ends the scan at the first global rule known not to match, with the public ones known to
      match before it; else it needs the matches when a rule does, and reports what matches. */
  ghost predicate FirstPassSays(c: Scan, globals: seq<ScanRule>, rules: seq<ScanRule>, truths: seq<bool>,
                                results: seq<bool>, r: Option<seq<Reported>>)
  {
    && AreTruths(c, globals, truths) && AreDecided(c, rules, results)
    && if |truths| < |globals| then r.Some? && AreReported(globals, truths, [], [], r.value)
       else if false in truths then r.None?
       else if |results| < |rules| then r.None? && Early(c, results, rules[|results|]).None?
       else r.Some? && AreReported(globals, truths, rules, results, r.value)
  }

  lemma FirstPassIs(c: Scan, globals: seq<ScanRule>, rules: seq<ScanRule>) returns (truths: seq<bool>, results: seq<bool>)
    ensures var o := FirstPass(c, globals, rules);
            FirstPassSays(c, globals, rules, truths, results, if o.Over? then Some(o.reported) else None)
  {
    hide RuleVerdict;
    truths := FirstGlobalsReported(c, globals, 0, [], false, []);
    var o := FirstGlobals(c, globals, 0, [], false);
    results := [];
    if o.Next? { results := FirstRulesReported(c, globals, truths, rules, 0, [], o.reported); }
  }

  /** What the full pass reports: nothing when a global rule does not match. */
  ghost predicate FullPassSays(c: Scan, globals: seq<ScanRule>, rules: seq<ScanRule>, globalMatches: seq<Matches>,
                               ruleMatches: seq<Matches>, results: seq<bool>, reported: seq<Reported>)
    requires |globals| == |globalMatches| && |rules| == |ruleMatches|
  {
    && |results| == |rules| && AreResults(c, rules, ruleMatches, results)
    && if GlobalsMatch(c, globals, globalMatches) then AreReported(globals, AllTrue(|globals|), rules, results, reported)
       else reported == []
  }

  // ----- The loops -----

  /** `evaluate_without_matches` */
  method EvaluateWithoutMatches(c: Scan, globals: seq<ScanRule>, rules: seq<ScanRule>) returns (r: Option<seq<Reported>>)
    ensures var o := FirstPass(c, globals, rules); r == if o.Over? then Some(o.reported) else None
    ensures exists truths, results :: FirstPassSays(c, globals, rules, truths, results, r)
  {
    ghost var truths, results := FirstPassIs(c, globals, rules);
    hide FirstPassSays;
    var reported, unknown := [], false;
    for i := 0 to |globals|
      invariant FirstGlobals(c, globals, 0, [], false) == FirstGlobals(c, globals, i, reported, unknown)
    {
      match RuleVerdict(WithResults(c, []), globals[i].condition, None) {
        case None => unknown := true;
        case Some(matched) =>
          if !matched { return Some(reported); }
          reported := reported + Report(globals[i], true, GlobalRule(i));
      }
    }
    if unknown { return None; }
    var previous: seq<bool> := [];
    for i := 0 to |rules|
      invariant FirstPass(c, globals, rules) == FirstRules(c, rules, i, previous, reported)
    {
      match RuleVerdict(WithResults(c, previous), rules[i].condition, None) {
        case None => return None;
        case Some(matched) =>
          reported := reported + Report(rules[i], matched, NormalRule(i));
          previous := previous + [matched];
      }
    }
    return Some(reported);
  }

  /** The loop of `do_scan` over all the rules, after the scan of the memory. */
  method EvaluateWithMatches(c: Scan, globals: seq<ScanRule>, rules: seq<ScanRule>, globalMatches: seq<Matches>,
                             ruleMatches: seq<Matches>) returns (reported: seq<Reported>)
    requires |globals| == |globalMatches| && |rules| == |ruleMatches|
    ensures FullPass(c, globals, rules, globalMatches, ruleMatches) == Over(reported)
    ensures exists results :: FullPassSays(c, globals, rules, globalMatches, ruleMatches, results, reported)
  {
    hide RuleVerdict, Matched, FullPassSays;
    ghost var results := FullPassIs(c, globals, rules, globalMatches, ruleMatches);
    reported := [];
    for i := 0 to |globals|
      invariant FullGlobals(c, globals, globalMatches, 0, []) == FullGlobals(c, globals, globalMatches, i, reported)
    {
      if !Matched(WithResults(c, []), globals[i], globalMatches[i]) { return []; }
      reported := reported + Report(globals[i], true, GlobalRule(i));
    }
    var previous: seq<bool> := [];
    for i := 0 to |rules|
      invariant FullPass(c, globals, rules, globalMatches, ruleMatches)
             == FullRules(c, rules, ruleMatches, i, previous, reported)
    {
      var matched := Matched(WithResults(c, previous), rules[i], ruleMatches[i]);
      reported := reported + Report(rules[i], matched, NormalRule(i));
      previous := previous + [matched];
    }
  }

  // ----- Both passes report the same -----

  /** The condition on rules under which one verdict is final, whatever the results of the rules before. */
  ghost predicate SteadyRule(c: Scan, ep: Option<nat>, rule: ScanRule) {
    forall previous :: SteadyWith(c, ep, rule.condition, previous)
  }

  ghost predicate SteadyWith(c: Scan, ep: Option<nat>, condition: Expr, previous: seq<bool>) {
    var now := WithResults(c, previous);
    Everywhere(now, Env(None, [], None), condition, (env, e) => Steady(now, ep, env, e))
  }

  ghost predicate AllSteady(c: Scan, ep: Option<nat>, rules: seq<ScanRule>) {
    forall i :: 0 <= i < |rules| ==> SteadyRule(c, ep, rules[i])
  }

  lemma VerdictStays(c: Scan, ep: Option<nat>, rule: ScanRule, previous: seq<bool>, matches: Matches)
    requires SteadyRule(c, ep, rule) && RuleVerdict(WithResults(c, previous), rule.condition, None).Some?
    ensures Matched(WithResults(Later(c, ep), previous), rule, matches)
         == RuleVerdict(WithResults(c, previous), rule.condition, None).value
  {
    hide RuleVerdict, Everywhere;
    var now := WithResults(c, previous);
    assert SteadyWith(c, ep, rule.condition, previous);
    FirstPassIsFinal(now, ep, rule.condition, matches);
    assert Later(now, ep) == WithResults(Later(c, ep), previous);
  }

  /** A false global rule ends the full pass, too, and then nothing is reported. */
  lemma {:induction false} FalseGlobal(c: Scan, ep: Option<nat>, globals: seq<ScanRule>, matches: seq<Matches>, i: nat,
                                       reported: seq<Reported>, unknown: bool, others: seq<Reported>)
    requires i <= |globals| == |matches| && AllSteady(c, ep, globals)
    requires FirstGlobals(c, globals, i, reported, unknown).Over?
    ensures FullGlobals(Later(c, ep), globals, matches, i, others) == Over([])
    decreases |globals| - i
  {
    hide RuleVerdict, SteadyRule;
    var first := RuleVerdict(WithResults(c, []), globals[i].condition, None);
    var next := others + Report(globals[i], true, GlobalRule(i));
    if first.None? {
      FalseGlobal(c, ep, globals, matches, i + 1, reported, true, next);
    } else {
      VerdictStays(c, ep, globals[i], [], matches[i]);
      if first.value {
        FalseGlobal(c, ep, globals, matches, i + 1, reported + Report(globals[i], true, GlobalRule(i)), unknown, next);
      }
    }
  }

  lemma {:induction false} TrueGlobals(c: Scan, ep: Option<nat>, globals: seq<ScanRule>, matches: seq<Matches>, i: nat,
                                       reported: seq<Reported>, unknown: bool)
    requires i <= |globals| == |matches| && AllSteady(c, ep, globals)
    requires FirstGlobals(c, globals, i, reported, unknown).Next?
    ensures !unknown
    ensures FullGlobals(Later(c, ep), globals, matches, i, reported) == FirstGlobals(c, globals, i, reported, unknown)
    decreases |globals| - i
  {
    hide RuleVerdict, SteadyRule;
    if i < |globals| {
      var first := RuleVerdict(WithResults(c, []), globals[i].condition, None);
      if first.None? {
        TrueGlobals(c, ep, globals, matches, i + 1, reported, true);
      } else {
        VerdictStays(c, ep, globals[i], [], matches[i]);
        TrueGlobals(c, ep, globals, matches, i + 1, reported + Report(globals[i], true, GlobalRule(i)), unknown);
      }
    }
  }

  lemma {:induction false} DecidedRules(c: Scan, ep: Option<nat>, rules: seq<ScanRule>, matches: seq<Matches>, i: nat,
                                        previous: seq<bool>, reported: seq<Reported>)
    requires i <= |rules| == |matches| && AllSteady(c, ep, rules)
    requires FirstRules(c, rules, i, previous, reported).Over?
    ensures FullRules(Later(c, ep), rules, matches, i, previous, reported) == FirstRules(c, rules, i, previous, reported)
    decreases |rules| - i
  {
    hide RuleVerdict, SteadyRule;
    if i < |rules| {
      var matched := RuleVerdict(WithResults(c, previous), rules[i].condition, None).value;
      VerdictStays(c, ep, rules[i], previous, matches[i]);
      DecidedRules(c, ep, rules, matches, i + 1, previous + [matched], reported + Report(rules[i], matched, NormalRule(i)));
    }
  }

  /** Is some global rule false for the pass without matches? */
  predicate GlobalFails(c: Scan, globals: seq<ScanRule>) {
    exists i :: 0 <= i < |globals| && RuleVerdict(WithResults(c, []), globals[i].condition, None) == Some(false)
  }

  lemma {:induction false} FailsFrom(c: Scan, globals: seq<ScanRule>, i: nat, reported: seq<Reported>, unknown: bool)
    requires i <= |globals|
    ensures FirstGlobals(c, globals, i, reported, unknown).Over?
       <==> exists j :: i <= j < |globals| && RuleVerdict(WithResults(c, []), globals[j].condition, None) == Some(false)
    decreases |globals| - i
  {
    hide RuleVerdict;
    if i < |globals| {
      var first := RuleVerdict(WithResults(c, []), globals[i].condition, None);
      FailsFrom(c, globals, i + 1, reported, true);
      FailsFrom(c, globals, i + 1, reported + Report(globals[i], true, GlobalRule(i)), unknown);
    }
  }

  /** When the pass without matches ends the scan, the full pass would report the same rules, and none at all if a
      global rule is false. */
  lemma FullPassReports(c: Scan, ep: Option<nat>, globals: seq<ScanRule>, rules: seq<ScanRule>, globalMatches: seq<Matches>,
                        ruleMatches: seq<Matches>)
    requires |globals| == |globalMatches| && |rules| == |ruleMatches|
    requires AllSteady(c, ep, globals) && AllSteady(c, ep, rules) && FirstPass(c, globals, rules).Over?
    ensures FullPass(Later(c, ep), globals, rules, globalMatches, ruleMatches)
         == Over(if GlobalFails(c, globals) then [] else FirstPass(c, globals, rules).reported)
  {
    hide RuleVerdict, SteadyRule;
    FailsFrom(c, globals, 0, [], false);
    var o := FirstGlobals(c, globals, 0, [], false);
    if o.Over? {
      FalseGlobal(c, ep, globals, globalMatches, 0, [], false, []);
    } else {
      TrueGlobals(c, ep, globals, globalMatches, 0, [], false);
      DecidedRules(c, ep, rules, ruleMatches, 0, [], o.reported);
    }
  }

  /** Is a public global rule true before the first false one? */
  predicate ReportedBeforeFailure(c: Scan, globals: seq<ScanRule>) {
    exists i, j :: && 0 <= i < j < |globals| && Fails(c, globals, j) && Shows(c, globals, i)
                   && forall k :: 0 <= k < j ==> !Fails(c, globals, k)
  }

  predicate Fails(c: Scan, globals: seq<ScanRule>, i: nat)
    requires i < |globals|
  {
    RuleVerdict(WithResults(c, []), globals[i].condition, None) == Some(false)
  }

  predicate Shows(c: Scan, globals: seq<ScanRule>, i: nat)
    requires i < |globals|
  {
    !globals[i].isPrivate && RuleVerdict(WithResults(c, []), globals[i].condition, None) == Some(true)
  }

  /** The first failure from `i` on. */
  lemma {:induction false} OverReports(c: Scan, globals: seq<ScanRule>, i: nat, reported: seq<Reported>, unknown: bool)
      returns (j: nat)
    requires i <= |globals| && FirstGlobals(c, globals, i, reported, unknown).Over?
    ensures i <= j < |globals| && Fails(c, globals, j) && forall k :: i <= k < j ==> !Fails(c, globals, k)
    ensures FirstGlobals(c, globals, i, reported, unknown).reported == []
       <==> reported == [] && forall k :: i <= k < j ==> !Shows(c, globals, k)
    decreases |globals| - i
  {
    hide RuleVerdict;
    var first := RuleVerdict(WithResults(c, []), globals[i].condition, None);
    if first == Some(false) {
      j := i;
    } else {
      var more := if first.None? then [] else Report(globals[i], true, GlobalRule(i));
      assert first.None? ==> reported + more == reported;
      j := OverReports(c, globals, i + 1, reported + more, unknown || first.None?);
      assert more == [] <==> !Shows(c, globals, i);
      assert reported + more == [] <==> reported == [] && !Shows(c, globals, i);
    }
  }

  /** The pass without matches, when it ends the scan, reports what the full pass would exactly when no public global
      rule is true before the first false one: it keeps those, and the full pass drops them. */
  lemma ReportsAgreeIff(c: Scan, ep: Option<nat>, globals: seq<ScanRule>, rules: seq<ScanRule>, globalMatches: seq<Matches>,
                        ruleMatches: seq<Matches>)
    requires |globals| == |globalMatches| && |rules| == |ruleMatches|
    requires AllSteady(c, ep, globals) && AllSteady(c, ep, rules) && FirstPass(c, globals, rules).Over?
    ensures FirstPass(c, globals, rules) == FullPass(Later(c, ep), globals, rules, globalMatches, ruleMatches)
       <==> !ReportedBeforeFailure(c, globals)
  {
    hide RuleVerdict, SteadyRule;
    FullPassReports(c, ep, globals, rules, globalMatches, ruleMatches);
    FailsFrom(c, globals, 0, [], false);
    if GlobalFails(c, globals) {
      var j := OverReports(c, globals, 0, [], false);
      if ReportedBeforeFailure(c, globals) {
        var i, j' :| && 0 <= i < j' < |globals| && Fails(c, globals, j') && Shows(c, globals, i)
                     && forall k :: 0 <= k < j' ==> !Fails(c, globals, k);
        assert j == j';
      }
    }
  }

  /** Two global rules, `true` then `false`: the first is reported without matches, and not by the full pass. */
  lemma KeptGlobalWitness(c: Scan, ms: Matches)
    ensures var globals := [ScanRule(Const(Boolean(true)), false), ScanRule(Const(Boolean(false)), false)];
            && FirstPass(c, globals, []) == Over([GlobalRule(0)])
            && FullPass(c, globals, [], [ms, ms], []) == Over([])
  {
    var now := WithResults(c, []);
    var globals := [ScanRule(Const(Boolean(true)), false), ScanRule(Const(Boolean(false)), false)];
    ConstVerdict(now, true, None);
    ConstVerdict(now, false, None);
    ConstVerdict(now, true, Some(ms));
    ConstVerdict(now, false, Some(ms));
    hide RuleVerdict;
    assert FirstGlobals(c, globals, 1, [GlobalRule(0)], false) == Over([GlobalRule(0)]);
    assert FullGlobals(c, globals, [ms, ms], 1, [GlobalRule(0)]) == Over([]);
  }

  lemma ConstVerdict(c: Scan, b: bool, matches: Option<Matches>)
    ensures RuleVerdict(c, Const(Boolean(b)), matches) == Some(b)
  {
    assert Eval(c, Env(None, [], matches), Const(Boolean(b))) == Ok(Boolean(b));
  }
}
