/** What sets of variables and rules stand for, and which variables and wildcards a condition uses, said without the
    functions that compute them. */
module Patterns {
  import opened Base
  import opened Values
  import opened Types
  import opened Sources
  import opened Expressions
  import opened Compiling
  import opened RuleCompiling
  import opened Typing
  import S = Selection

  // ----- Sets of variables -----

  /** The pattern chooses the `i`th name: a wildcard every name with its prefix, a name the first one that is it. */
  predicate Chooses(names: seq<string>, p: Pattern, i: nat) {
    i < |names| && Picks(p, names[i]) && (!p.isWildcard ==> forall m :: 0 <= m < i ==> names[m] != p.name)
  }

  /** How many of the patterns choose it. */
  function HowMany(names: seq<string>, patterns: seq<Pattern>, i: nat): nat {
    if patterns == [] then 0 else (if Chooses(names, patterns[0], i) then 1 else 0) + HowMany(names, patterns[1..], i)
  }

  lemma Appended<T>(a: seq<T>, b: seq<T>, x: T)
    ensures multiset(a + b)[x] == multiset(a)[x] + multiset(b)[x]
  {
  }

  lemma {:induction false} PrefixedOnce(names: seq<string>, prefix: string, from: nat, i: nat)
    requires from <= |names|
    ensures multiset(Prefixed(names, prefix, from))[i] == if from <= i < |names| && prefix <= names[i] then 1 else 0
    decreases |names| - from
  {
    if from < |names| {
      var first: seq<nat> := if prefix <= names[from] then [from] else [];
      var rest := Prefixed(names, prefix, from + 1);
      PrefixedOnce(names, prefix, from + 1, i);
      Appended(first, rest, i);
      assert multiset(first)[i] == if i == from && prefix <= names[from] then 1 else 0;
    }
  }

  lemma SelectedOnce(names: seq<string>, p: Pattern, i: nat)
    ensures multiset(Selected(names, p))[i] == if Chooses(names, p, i) then 1 else 0
  {
    if p.isWildcard {
      PrefixedOnce(names, p.name, 0, i);
    } else {
      var first := IndexOf(names, p.name);
      if first.Some? {
        forall m | 0 <= m < first.value ensures names[m] != p.name { assert names[..first.value][m] == names[m]; }
        assert multiset([first.value])[i] == if i == first.value then 1 else 0;
      } else {
        forall m | 0 <= m < |names| ensures names[m] != p.name { assert names[m] in names; }
      }
    }
  }

  /** A set of variables holds a variable as often as a pattern chooses it. */
  lemma {:induction false} VariablesChosen(names: seq<string>, patterns: seq<Pattern>, i: nat)
    requires VariablesOfSome(names, patterns).Some?
    ensures multiset(VariablesOfSome(names, patterns).value)[i] == HowMany(names, patterns, i)
    decreases |patterns|
  {
    hide Chooses, Selected;
    if patterns != [] {
      SelectedOnce(names, patterns[0], i);
      VariablesChosen(names, patterns[1..], i);
    }
  }

  /** The empty set of patterns stands for all of them, once each. */
  lemma AllVariables(names: seq<string>, i: nat)
    requires VariablesOf(names, []).Some?
    ensures multiset(VariablesOf(names, []).value)[i] == if i < |names| then 1 else 0
  {
    UptoOnce(|names|, i);
  }

  lemma {:induction false} UptoOnce(n: nat, i: nat)
    ensures multiset(Upto(n))[i] == if i < n then 1 else 0
    decreases n
  {
    if n > 0 {
      UptoOnce(n - 1, i);
      assert Upto(n) == Upto(n - 1) + [n - 1];
    }
  }

  lemma {:induction false} ChosenByOne(names: seq<string>, patterns: seq<Pattern>, i: nat)
    ensures HowMany(names, patterns, i) > 0 <==> exists j :: 0 <= j < |patterns| && Chooses(names, patterns[j], i)
    decreases |patterns|
  {
    hide Chooses;
    if patterns != [] {
      ChosenByOne(names, patterns[1..], i);
      assert patterns == [patterns[0]] + patterns[1..];
    }
  }

  // ----- Sets of rules -----

  /** The rules of this index that a pattern chooses, and how many of them all the patterns do. */
  function RulesFor(rules: seq<(string, Option<nat>)>, p: Pattern, index: Option<nat>): set<nat> {
    set j: nat | j < |rules| && Chooses(Sources.Names(rules), p, j) && rules[j].1 == index
  }

  function HowManyRules(rules: seq<(string, Option<nat>)>, patterns: seq<Pattern>, index: Option<nat>): nat {
    if patterns == [] then 0 else |RulesFor(rules, patterns[0], index)| + HowManyRules(rules, patterns[1..], index)
  }

  function WithPrefix(rules: seq<(string, Option<nat>)>, prefix: string, index: Option<nat>): (bs: seq<bool>)
    ensures |bs| == |rules| && forall j :: 0 <= j < |rules| ==> bs[j] == (prefix <= rules[j].0 && rules[j].1 == index)
  {
    seq(|rules|, j requires 0 <= j < |rules| => prefix <= rules[j].0 && rules[j].1 == index)
  }

  lemma {:induction false} PrefixedRulesCounted(rules: seq<(string, Option<nat>)>, prefix: string, index: Option<nat>)
    ensures multiset(PrefixedRules(rules, prefix))[index] == S.CountTrue(WithPrefix(rules, prefix, index))
    decreases |rules|
  {
    if rules != [] {
      var first: seq<Option<nat>> := if prefix <= rules[0].0 then [rules[0].1] else [];
      var rest := PrefixedRules(rules[1..], prefix);
      PrefixedRulesCounted(rules[1..], prefix, index);
      WithPrefixStep(rules, prefix, index);
      hide WithPrefix;
      Appended(first, rest, index);
      OfOne(rules[0].1, index);
    }
  }

  lemma OfOne(x: Option<nat>, index: Option<nat>)
    ensures multiset([x])[index] == if x == index then 1 else 0
  {
  }

  lemma WithPrefixStep(rules: seq<(string, Option<nat>)>, prefix: string, index: Option<nat>)
    requires rules != []
    ensures WithPrefix(rules, prefix, index)
         == [prefix <= rules[0].0 && rules[0].1 == index] + WithPrefix(rules[1..], prefix, index)
  {
  }

  lemma {:induction false} FindIsFirst(rules: seq<(string, Option<nat>)>, name: string) returns (j: nat)
    requires Find(rules, name).Some?
    ensures j < |rules| && rules[j].0 == name && rules[j].1 == Find(rules, name).value
    ensures forall m :: 0 <= m < j ==> rules[m].0 != name
    decreases |rules|
  {
    if rules[0].0 == name {
      j := 0;
    } else {
      var rest := FindIsFirst(rules[1..], name);
      j := rest + 1;
      forall m | 0 <= m < j ensures rules[m].0 != name { if m > 0 { assert rules[1..][m - 1] == rules[m]; } }
    }
  }

  lemma RulesSelected(rules: seq<(string, Option<nat>)>, p: Pattern, index: Option<nat>)
    ensures multiset(SelectedRules(rules, p))[index] == |RulesFor(rules, p, index)|
  {
    var names := Sources.Names(rules);
    if p.isWildcard {
      var bs := WithPrefix(rules, p.name, index);
      PrefixedRulesCounted(rules, p.name, index);
      S.TruesAreCounted(bs);
      assert RulesFor(rules, p, index) == S.Trues(bs);
    } else {
      FoundIff(rules, p.name);
      if Find(rules, p.name).Some? {
        var j := FindIsFirst(rules, p.name);
        assert Chooses(names, p, j) && forall i: nat :: Chooses(names, p, i) ==> i == j by {
          forall i: nat | Chooses(names, p, i) ensures i == j { assert names[i] == p.name && names[j] == p.name; }
        }
        assert RulesFor(rules, p, index) == if rules[j].1 == index then {j} else {};
      } else {
        assert RulesFor(rules, p, index) == {};
      }
    }
  }

  /** A set of rules holds an index as often as patterns choose rules of that index. */
  lemma {:induction false} RulesChosen(rules: seq<(string, Option<nat>)>, patterns: seq<Pattern>, index: Option<nat>)
    requires RulesOf(rules, patterns).Some?
    ensures multiset(RulesOf(rules, patterns).value)[index] == HowManyRules(rules, patterns, index)
    decreases |patterns|
  {
    hide RulesFor, SelectedRules;
    if patterns != [] {
      var first, rest := SelectedRules(rules, patterns[0]), RulesOf(rules, patterns[1..]).value;
      RulesSelected(rules, patterns[0], index);
      RulesChosen(rules, patterns[1..], index);
      Appended(first, rest, index);
    }
  }

  // ----- What a condition uses -----

  /** A condition inside another one, or itself. */
  ghost predicate Inside(k: Context, scope: set<string>, e: Source, p: Part)
    decreases e
  {
    p == Part(e, scope)
    || exists j :: 0 <= j < |PartsOf(k, scope, e)| && Inside(k, PartsOf(k, scope, e)[j].scope, PartsOf(k, scope, e)[j].e, p)
  }

  /** The condition itself, whatever is inside it, looks at this variable: by its name, or in a set. */
  predicate LooksAt(k: Context, e: Source, i: nat) {
    if IsOnVariable(e) then e.name != "" && Chooses(k.variables, Pattern(e.name, false), i)
    else
      && IsForVariables(e) && AllPickSome(e.patterns, k.variables) && i < |k.variables|
      && (e.patterns == [] || exists j :: 0 <= j < |e.patterns| && Chooses(k.variables, e.patterns[j], i))
  }

  lemma {:induction false} SumUses(es: seq<Effects>, i: nat)
    ensures i in Sum(es).uses <==> exists j :: 0 <= j < |es| && i in es[j].uses
    decreases |es|
  {
    if es != [] {
      SumUses(es[1..], i);
      assert es == [es[0]] + es[1..];
    }
  }

  lemma OwnUses(k: Context, e: Source, i: nat)
    ensures i in OwnEffects(k, e).uses <==> LooksAt(k, e, i)
  {
    hide Chooses;
    if IsOnVariable(e) {
      if e.name != "" { NamedIs(k, e.name, i); }
    } else if IsForVariables(e) {
      VariablesIff(k.variables, e.patterns);
      if VariablesOf(k.variables, e.patterns).Some? {
        if e.patterns == [] {
          AllVariables(k.variables, i);
        } else {
          VariablesChosen(k.variables, e.patterns, i);
          ChosenByOne(k.variables, e.patterns, i);
        }
        ChosenExists(k.variables, e.patterns, i);
      }
    }
  }

  lemma ChosenExists(names: seq<string>, patterns: seq<Pattern>, i: nat)
    ensures (exists j :: 0 <= j < |patterns| && Chooses(names, patterns[j], i)) ==> i < |names|
  {
  }

  lemma NamedIs(k: Context, name: string, i: nat)
    requires name != ""
    ensures VariableNamed(k, name) == Some(Some(i)) <==> Chooses(k.variables, Pattern(name, false), i)
  {
    SelectedOnce(k.variables, Pattern(name, false), i);
  }

  /** A condition uses a variable when it, or some condition inside it, looks at it. */
  lemma {:induction false} UsesIff(k: Context, scope: set<string>, e: Source, i: nat)
    ensures i in EffectsOf(k, scope, e).uses <==> exists p :: Inside(k, scope, e, p) && LooksAt(k, p.e, i)
    decreases e
  {
    hide LooksAt, OwnEffects, PartsOf, Sum;
    var ps, effects := PartsOf(k, scope, e), EffectsOfParts(k, scope, e);
    OwnUses(k, e, i);
    SumUses(effects, i);
    forall j | 0 <= j < |ps|
      ensures i in effects[j].uses <==> exists p :: Inside(k, ps[j].scope, ps[j].e, p) && LooksAt(k, p.e, i)
    {
      UsesIff(k, ps[j].scope, ps[j].e, i);
    }
    if LooksAt(k, e, i) { assert Inside(k, scope, e, Part(e, scope)); }
    forall j, p | 0 <= j < |ps| && Inside(k, ps[j].scope, ps[j].e, p) ensures Inside(k, scope, e, p) {}
  }

  lemma {:induction false} SumWildcards(es: seq<Effects>, w: string)
    ensures w in Sum(es).wildcards <==> exists j :: 0 <= j < |es| && w in es[j].wildcards
    decreases |es|
  {
    if es != [] {
      SumWildcards(es[1..], w);
      assert es == [es[0]] + es[1..];
    }
  }

  lemma {:induction false} OwnWildcards(patterns: seq<Pattern>, w: string)
    ensures w in WildcardsIn(patterns) <==> Pattern(w, true) in patterns
    decreases |patterns|
  {
    if patterns != [] {
      OwnWildcards(patterns[1..], w);
      assert patterns == [patterns[0]] + patterns[1..];
    }
  }

  /** The wildcards on rules are those of the sets of rules inside the condition. */
  lemma {:induction false} WildcardsIff(k: Context, scope: set<string>, e: Source, w: string)
    ensures w in EffectsOf(k, scope, e).wildcards
       <==> exists p :: Inside(k, scope, e, p) && p.e.ForRules? && Pattern(w, true) in p.e.patterns
    decreases e
  {
    hide PartsOf, Sum, VariableNamed, VariablesOf;
    var ps, effects := PartsOf(k, scope, e), EffectsOfParts(k, scope, e);
    if e.ForRules? { OwnWildcards(e.patterns, w); }
    SumWildcards(effects, w);
    forall j | 0 <= j < |ps|
      ensures w in effects[j].wildcards
         <==> exists p :: Inside(k, ps[j].scope, ps[j].e, p) && p.e.ForRules? && Pattern(w, true) in p.e.patterns
    {
      WildcardsIff(k, ps[j].scope, ps[j].e, w);
    }
    if e.ForRules? && Pattern(w, true) in e.patterns { assert Inside(k, scope, e, Part(e, scope)); }
    forall j, p | 0 <= j < |ps| && Inside(k, ps[j].scope, ps[j].e, p) ensures Inside(k, scope, e, p) {}
  }
}
