/** Which match is preferred: the ends of the matches of a HIR at a position, in the order in which a matcher that tries
    branches in order, and repetitions longest or shortest first, finds them. */
module Preference {
  import opened Base
  import opened Hir
  import opened Widener

  function Least(kind: RepetitionKind): nat {
    match kind
    case ZeroOrOne => 0
    case ZeroOrMore => 0
    case OneOrMore => 1
    case Exactly(n) => n
    case AtLeast(n) => n
    case Bounded(from, _) => from
  }

  function Most(kind: RepetitionKind): Option<nat> {
    match kind
    case ZeroOrOne => Some(1)
    case ZeroOrMore => None
    case OneOrMore => None
    case Exactly(n) => Some(n)
    case AtLeast(_) => None
    case Bounded(_, to) => Some(to)
  }

  predicate Within(ks: seq<nat>, lo: nat, hi: nat) {
    forall k :: 0 <= k < |ks| ==> lo <= ks[k] <= hi
  }

  function Fewer(n: nat): nat {
    if n == 0 then 0 else n - 1
  }

  function FewerAtMost(to: Option<nat>): Option<nat> {
    if to.None? then None else Some(Fewer(to.value))
  }

  /** The ends of the matches of `h` that start at `i`, the preferred ones first. */
  function Ends(h: Hir, dotAll: bool, mem: bytes, i: nat): (ks: seq<nat>)
    requires i <= |mem|
    ensures Within(ks, i, |mem|)
    decreases h, 1, 0, 0, 0, 0
  {
    match h
    case Alternation(alts) => EndsOfBranches(alts, dotAll, mem, i)
    case Assertion(kind) => if AssertionHolds(kind, mem, i) then [i] else []
    case Concat(hs) => EndsSeq(hs, dotAll, mem, i, [i])
    case Empty => [i]
    case Group(g) => Ends(g, dotAll, mem, i)
    case Repetition(g, kind, greedy) => EndsTimes(g, Least(kind), Most(kind), greedy, dotAll, mem, i)
    case _ => if i < |mem| && Accepts(h, dotAll, mem[i]) then [i + 1] else []
  }

  function EndsOfBranches(alts: seq<Hir>, dotAll: bool, mem: bytes, i: nat): (ks: seq<nat>)
    requires i <= |mem|
    ensures Within(ks, i, |mem|)
    decreases alts, 0, 0, 0, 0, 0
  {
    if alts == [] then [] else Ends(alts[0], dotAll, mem, i) + EndsOfBranches(alts[1..], dotAll, mem, i)
  }

  /** From several starts, in order. */
  function EndsFrom(h: Hir, dotAll: bool, mem: bytes, lo: nat, starts: seq<nat>): (ks: seq<nat>)
    requires Within(starts, lo, |mem|)
    ensures Within(ks, lo, |mem|)
    decreases h, 2, |starts|, 0, 0, 0
  {
    if starts == [] then [] else Ends(h, dotAll, mem, starts[0]) + EndsFrom(h, dotAll, mem, lo, starts[1..])
  }

  function EndsSeq(hs: seq<Hir>, dotAll: bool, mem: bytes, lo: nat, starts: seq<nat>): (ks: seq<nat>)
    requires Within(starts, lo, |mem|)
    ensures Within(ks, lo, |mem|)
    decreases hs, 0, 0, 0, 0, 0
  {
    if hs == [] then starts else EndsSeq(hs[1..], dotAll, mem, lo, EndsFrom(hs[0], dotAll, mem, lo, starts))
  }

  /** A repetition: once more and then the rest, or stop, in the order that greediness tells. A turn that matches nothing
      is not repeated. */
  function EndsTimes(g: Hir, from: nat, to: Option<nat>, greedy: bool, dotAll: bool, mem: bytes, i: nat): (ks: seq<nat>)
    requires i <= |mem|
    ensures Within(ks, i, |mem|)
    decreases g, 3, |mem| - i, from, 1, 0
  {
    var more := if to == Some(0) then [] else EndsMore(g, from, to, greedy, dotAll, mem, i, Ends(g, dotAll, mem, i));
    var stop := if from == 0 then [i] else [];
    if greedy then more + stop else stop + more
  }

  function EndsMore(g: Hir, from: nat, to: Option<nat>, greedy: bool, dotAll: bool, mem: bytes, i: nat, turns: seq<nat>): (ks: seq<nat>)
    requires i <= |mem| && Within(turns, i, |mem|)
    ensures Within(ks, i, |mem|)
    decreases g, 3, |mem| - i, from, 0, |turns|
  {
    if turns == [] then []
    else
      (if turns[0] == i && from == 0 then []
       else EndsTimes(g, Fewer(from), FewerAtMost(to), greedy, dotAll, mem, turns[0]))
      + EndsMore(g, from, to, greedy, dotAll, mem, i, turns[1..])
  }

  // ----- They are the ends of the matches -----

  lemma InAppend(xs: seq<nat>, ys: seq<nat>, k: nat)
    ensures k in xs + ys <==> k in xs || k in ys
  {
  }

  lemma {:induction false} EndsAreMatches(h: Hir, dotAll: bool, mem: bytes, i: nat, j: nat)
    requires i <= |mem|
    ensures j in Ends(h, dotAll, mem, i) <==> Matches(h, dotAll, mem, i, j)
    decreases h, 1, 0
  {
    match h
    case Alternation(alts) => BranchEndsAreMatches(alts, dotAll, mem, i, j);
    case Concat(hs) =>
      SeqEndsAreMatches(hs, dotAll, mem, i, [i], j);
      if MatchesSeq(hs, dotAll, mem, i, j) {
        MatchesSeqBounds(hs, dotAll, mem, i, j);
        assert i in [i];
      }
    case Group(g) => EndsAreMatches(g, dotAll, mem, i, j);
    case Repetition(g, kind, greedy) =>
      var from, to := Least(kind), Most(kind);
      if j in EndsTimes(g, from, to, greedy, dotAll, mem, i) {
        var n := TimesOfEnd(g, from, to, greedy, dotAll, mem, i, j);
        assert CountAllowed(kind, n);
        MatchesTimesBounds(g, n, dotAll, mem, i, j);
      }
      if Matches(h, dotAll, mem, i, j) {
        var n: nat :| CountAllowed(kind, n) && MatchesTimes(g, n, dotAll, mem, i, j);
        EndOfTimes(g, from, to, greedy, n, dotAll, mem, i, j);
      }
    case _ =>
  }

  lemma {:induction false} BranchEndsAreMatches(alts: seq<Hir>, dotAll: bool, mem: bytes, i: nat, j: nat)
    requires i <= |mem|
    ensures j in EndsOfBranches(alts, dotAll, mem, i) <==> exists k :: 0 <= k < |alts| && Matches(alts[k], dotAll, mem, i, j)
    decreases alts, 0, 0
  {
    if alts != [] {
      EndsAreMatches(alts[0], dotAll, mem, i, j);
      BranchEndsAreMatches(alts[1..], dotAll, mem, i, j);
      InAppend(Ends(alts[0], dotAll, mem, i), EndsOfBranches(alts[1..], dotAll, mem, i), j);
      if k :| 0 <= k < |alts| && Matches(alts[k], dotAll, mem, i, j) {
        if k > 0 { assert Matches(alts[1..][k - 1], dotAll, mem, i, j); }
      }
      if k :| 0 <= k < |alts[1..]| && Matches(alts[1..][k], dotAll, mem, i, j) {
        assert Matches(alts[k + 1], dotAll, mem, i, j);
      }
    }
  }

  lemma {:induction false} FromEndsAreMatches(h: Hir, dotAll: bool, mem: bytes, lo: nat, starts: seq<nat>, j: nat)
    requires Within(starts, lo, |mem|)
    ensures j in EndsFrom(h, dotAll, mem, lo, starts) <==> exists i :: i in starts && Matches(h, dotAll, mem, i, j)
    decreases h, 2, |starts|
  {
    if starts != [] {
      EndsAreMatches(h, dotAll, mem, starts[0], j);
      FromEndsAreMatches(h, dotAll, mem, lo, starts[1..], j);
      InAppend(Ends(h, dotAll, mem, starts[0]), EndsFrom(h, dotAll, mem, lo, starts[1..]), j);
      assert forall i :: i in starts <==> i == starts[0] || i in starts[1..];
    }
  }

  lemma {:induction false} SeqEndsAreMatches(hs: seq<Hir>, dotAll: bool, mem: bytes, lo: nat, starts: seq<nat>, j: nat)
    requires Within(starts, lo, |mem|)
    ensures j in EndsSeq(hs, dotAll, mem, lo, starts) <==> exists i :: i in starts && MatchesSeq(hs, dotAll, mem, i, j)
    decreases hs, 0, 0
  {
    if hs == [] {
      if j in starts { assert MatchesSeq(hs, dotAll, mem, j, j); }
    } else {
      var next := EndsFrom(hs[0], dotAll, mem, lo, starts);
      SeqEndsAreMatches(hs[1..], dotAll, mem, lo, next, j);
      if i :| i in starts && MatchesSeq(hs, dotAll, mem, i, j) {
        var k := MatchesSeqFirst(hs, dotAll, mem, i, j);
        FromEndsAreMatches(hs[0], dotAll, mem, lo, starts, k);
        assert k in next;
      }
      if k :| k in next && MatchesSeq(hs[1..], dotAll, mem, k, j) {
        FromEndsAreMatches(hs[0], dotAll, mem, lo, starts, k);
        var i :| i in starts && Matches(hs[0], dotAll, mem, i, k);
        assert MatchesSeq(hs, dotAll, mem, i, j);
      }
    }
  }

  predicate Counts(from: nat, to: Option<nat>, n: nat) {
    from <= n && (to.Some? ==> n <= to.value)
  }

  lemma {:induction false} TimesOfEnd(g: Hir, from: nat, to: Option<nat>, greedy: bool, dotAll: bool, mem: bytes, i: nat, j: nat)
      returns (n: nat)
    requires i <= |mem| && j in EndsTimes(g, from, to, greedy, dotAll, mem, i)
    ensures Counts(from, to, n) && MatchesTimes(g, n, dotAll, mem, i, j)
    decreases g, 3, |mem| - i, from, 1, 0
  {
    if from == 0 && j == i {
      n := 0;
    } else {
      n := TimesOfMore(g, from, to, greedy, dotAll, mem, i, Ends(g, dotAll, mem, i), j);
    }
  }

  lemma {:induction false} TimesOfMore(g: Hir, from: nat, to: Option<nat>, greedy: bool, dotAll: bool, mem: bytes, i: nat,
                                       turns: seq<nat>, j: nat) returns (n: nat)
    requires i <= |mem| && Within(turns, i, |mem|) && to != Some(0) && j in EndsMore(g, from, to, greedy, dotAll, mem, i, turns)
    requires forall k :: k in turns ==> k in Ends(g, dotAll, mem, i)
    ensures Counts(from, to, n) && MatchesTimes(g, n, dotAll, mem, i, j)
    decreases g, 3, |mem| - i, from, 0, |turns|
  {
    hide Ends, EndsTimes;
    var k := turns[0];
    InAppend(if k == i && from == 0 then [] else EndsTimes(g, Fewer(from), FewerAtMost(to), greedy, dotAll, mem, k),
             EndsMore(g, from, to, greedy, dotAll, mem, i, turns[1..]), j);
    if !(k == i && from == 0) && j in EndsTimes(g, Fewer(from), FewerAtMost(to), greedy, dotAll, mem, k) {
      var m := TimesOfEnd(g, Fewer(from), FewerAtMost(to), greedy, dotAll, mem, k, j);
      EndsAreMatches(g, dotAll, mem, i, k);
      n := m + 1;
    } else {
      n := TimesOfMore(g, from, to, greedy, dotAll, mem, i, turns[1..], j);
    }
  }

  lemma {:induction false} EndOfTimes(g: Hir, from: nat, to: Option<nat>, greedy: bool, n: nat, dotAll: bool, mem: bytes, i: nat, j: nat)
    requires i <= |mem| && Counts(from, to, n) && MatchesTimes(g, n, dotAll, mem, i, j)
    ensures j in EndsTimes(g, from, to, greedy, dotAll, mem, i)
    decreases g, 4, n
  {
    if n > 0 {
      var k := MatchesTimesFirst(g, n, dotAll, mem, i, j);
      EndsAreMatches(g, dotAll, mem, i, k);
      if k == i && from == 0 {
        EndOfTimes(g, from, to, greedy, n - 1, dotAll, mem, i, j);
      } else {
        EndOfTimes(g, Fewer(from), FewerAtMost(to), greedy, n - 1, dotAll, mem, k, j);
        EndOfMore(g, from, to, greedy, dotAll, mem, i, Ends(g, dotAll, mem, i), k, j);
      }
    }
  }

  lemma {:induction false} EndOfMore(g: Hir, from: nat, to: Option<nat>, greedy: bool, dotAll: bool, mem: bytes, i: nat,
                                     turns: seq<nat>, k: nat, j: nat)
    requires i <= |mem| && Within(turns, i, |mem|) && k in turns && !(k == i && from == 0) && k <= |mem|
    requires j in EndsTimes(g, Fewer(from), FewerAtMost(to), greedy, dotAll, mem, k)
    ensures j in EndsMore(g, from, to, greedy, dotAll, mem, i, turns)
    decreases |turns|
  {
    if turns[0] != k { EndOfMore(g, from, to, greedy, dotAll, mem, i, turns[1..], k, j); }
  }

  // ----- Widening keeps the order -----

  function Doubled(ks: seq<nat>): (r: seq<nat>)
    ensures |r| == |ks| && forall k :: 0 <= k < |ks| ==> r[k] == 2 * ks[k]
  {
    seq<nat>(|ks|, k requires 0 <= k < |ks| => 2 * ks[k])
  }

  lemma DoubledAppend(xs: seq<nat>, ys: seq<nat>)
    ensures Doubled(xs + ys) == Doubled(xs) + Doubled(ys)
  {
  }

  lemma DoubledWithin(ks: seq<nat>, lo: nat, hi: nat)
    requires Within(ks, lo, hi)
    ensures Within(Doubled(ks), 2 * lo, 2 * hi)
  {
  }

  /** From starts one after the other. */
  lemma {:induction false} FromAppend(h: Hir, dotAll: bool, mem: bytes, lo: nat, xs: seq<nat>, ys: seq<nat>)
    requires Within(xs, lo, |mem|) && Within(ys, lo, |mem|)
    ensures EndsFrom(h, dotAll, mem, lo, xs + ys) == EndsFrom(h, dotAll, mem, lo, xs) + EndsFrom(h, dotAll, mem, lo, ys)
    decreases |xs|
  {
    if xs == [] {
      assert xs + ys == ys;
    } else {
      assert (xs + ys)[0] == xs[0] && (xs + ys)[1..] == xs[1..] + ys;
      FromAppend(h, dotAll, mem, lo, xs[1..], ys);
    }
  }

  lemma {:induction false} SeqFromAppend(hs: seq<Hir>, dotAll: bool, mem: bytes, lo: nat, xs: seq<nat>, ys: seq<nat>)
    requires Within(xs, lo, |mem|) && Within(ys, lo, |mem|)
    ensures EndsSeq(hs, dotAll, mem, lo, xs + ys) == EndsSeq(hs, dotAll, mem, lo, xs) + EndsSeq(hs, dotAll, mem, lo, ys)
    decreases |hs|
  {
    if hs != [] {
      FromAppend(hs[0], dotAll, mem, lo, xs, ys);
      SeqFromAppend(hs[1..], dotAll, mem, lo, EndsFrom(hs[0], dotAll, mem, lo, xs), EndsFrom(hs[0], dotAll, mem, lo, ys));
    }
  }

  /** The lower bound only serves to bound the ends. */
  lemma {:induction false} FromLower(h: Hir, dotAll: bool, mem: bytes, lo: nat, lo': nat, starts: seq<nat>)
    requires Within(starts, lo, |mem|) && Within(starts, lo', |mem|)
    ensures EndsFrom(h, dotAll, mem, lo, starts) == EndsFrom(h, dotAll, mem, lo', starts)
    decreases |starts|
  {
    if starts != [] { FromLower(h, dotAll, mem, lo, lo', starts[1..]); }
  }

  lemma {:induction false} SeqLower(hs: seq<Hir>, dotAll: bool, mem: bytes, lo: nat, lo': nat, starts: seq<nat>)
    requires Within(starts, lo, |mem|) && Within(starts, lo', |mem|)
    ensures EndsSeq(hs, dotAll, mem, lo, starts) == EndsSeq(hs, dotAll, mem, lo', starts)
    decreases |hs|
  {
    if hs != [] {
      FromLower(hs[0], dotAll, mem, lo, lo', starts);
      SeqLower(hs[1..], dotAll, mem, lo, lo', EndsFrom(hs[0], dotAll, mem, lo, starts));
    }
  }

  lemma {:induction false} SeqAppend(xs: seq<Hir>, ys: seq<Hir>, dotAll: bool, mem: bytes, lo: nat, starts: seq<nat>)
    requires Within(starts, lo, |mem|)
    ensures EndsSeq(xs + ys, dotAll, mem, lo, starts) == EndsSeq(ys, dotAll, mem, lo, EndsSeq(xs, dotAll, mem, lo, starts))
    decreases |xs|
  {
    if xs == [] {
      assert xs + ys == ys;
    } else {
      assert (xs + ys)[0] == xs[0] && (xs + ys)[1..] == xs[1..] + ys;
      SeqAppend(xs[1..], ys, dotAll, mem, lo, EndsFrom(xs[0], dotAll, mem, lo, starts));
    }
  }

  /** A concatenation from several starts is its nodes from these, one after the other. */
  lemma {:induction false} ConcatFrom(hs: seq<Hir>, dotAll: bool, mem: bytes, lo: nat, starts: seq<nat>)
    requires Within(starts, lo, |mem|)
    ensures EndsFrom(Concat(hs), dotAll, mem, lo, starts) == EndsSeq(hs, dotAll, mem, lo, starts)
    decreases |starts|
  {
    if starts == [] {
      SeqFromAppend(hs, dotAll, mem, lo, [], []);
      assert starts + starts == starts;
    } else {
      ConcatFrom(hs, dotAll, mem, lo, starts[1..]);
      SeqLower(hs, dotAll, mem, starts[0], lo, [starts[0]]);
      SeqFromAppend(hs, dotAll, mem, lo, [starts[0]], starts[1..]);
      assert starts == [starts[0]] + starts[1..];
    }
  }

  lemma TwoNodes(h: Hir, g: Hir, dotAll: bool, mem: bytes, i: nat)
    requires i <= |mem|
    ensures Ends(Concat([h, g]), dotAll, mem, i) == EndsFrom(g, dotAll, mem, i, Ends(h, dotAll, mem, i))
  {
    hide EndsFrom;
    var hs, first := [h, g], Ends(h, dotAll, mem, i);
    OneStart(h, dotAll, mem, i, i);
    assert hs[1..] == [g] && [g][1..] == [];
    var second := EndsFrom(g, dotAll, mem, i, first);
    assert EndsSeq([], dotAll, mem, i, second) == second;
    assert EndsSeq([g], dotAll, mem, i, first) == second;
    assert EndsSeq(hs, dotAll, mem, i, [i]) == EndsSeq([g], dotAll, mem, i, first);
  }

  lemma ByteEnds(h: Hir, dotAll: bool, s: bytes, i: nat)
    requires OneByte(h) && i <= |s|
    ensures Ends(Concat([h, NUL]), dotAll, Wide(s), 2 * i) == Doubled(Ends(h, dotAll, s, i))
  {
    var w := Wide(s);
    if i < |s| { WideAt(s, i); }
    TwoNodes(h, NUL, dotAll, w, 2 * i);
    hide EndsTimes, EndsMore, EndsSeq;
    if i < |s| && Accepts(h, dotAll, s[i]) {
      OneStart(NUL, dotAll, w, 2 * i, 2 * i + 1);
      assert Ends(h, dotAll, w, 2 * i) == [2 * i + 1] && Doubled([i + 1]) == [2 * i + 2];
    } else {
      assert Ends(h, dotAll, w, 2 * i) == [];
    }
  }

  lemma OneStart(h: Hir, dotAll: bool, mem: bytes, lo: nat, i: nat)
    requires lo <= i <= |mem|
    ensures EndsFrom(h, dotAll, mem, lo, [i]) == Ends(h, dotAll, mem, i)
  {
    assert [i][1..] == [];
    assert Ends(h, dotAll, mem, i) + [] == Ends(h, dotAll, mem, i);
  }

  /** On its own. */
  lemma {:induction false} AloneEnds(h: Hir, dotAll: bool, s: bytes, i: nat)
    requires i <= |s|
    ensures Ends(Alone(h), dotAll, Wide(s), 2 * i) == Doubled(Ends(Erased(h), dotAll, s, i))
    decreases h, 2, 0, 0, 0, 0
  {
    WidenedEnds(h, dotAll, s, i);
  }

  /** The ends of the widened HIR in a widened text are twice those of the HIR, its word boundaries erased, in the text, and
      in the same order. */
  lemma {:induction false} WidenedEnds(h: Hir, dotAll: bool, s: bytes, i: nat)
    requires i <= |s|
    ensures Ends(Widened(h), dotAll, Wide(s), 2 * i) == Doubled(Ends(Erased(h), dotAll, s, i))
    decreases h, 1, 0, 0, 0, 0
  {
    match h
    case Alternation(alts) => BranchesEnds(alts, dotAll, s, i);
    case Concat(hs) =>
      PlacedEnds(hs, dotAll, s, i, [i]);
      assert Doubled([i]) == [2 * i];
    case Group(g) => AloneEnds(g, dotAll, s, i);
    case Repetition(g, kind, greedy) => TimesEnds(g, Least(kind), Most(kind), greedy, dotAll, s, i);
    case _ => if OneByte(h) { ByteEnds(h, dotAll, s, i); }
  }

  lemma {:induction false} BranchesEnds(hs: seq<Hir>, dotAll: bool, s: bytes, i: nat)
    requires i <= |s|
    ensures EndsOfBranches(Placed(hs, false), dotAll, Wide(s), 2 * i) == Doubled(EndsOfBranches(ErasedAll(hs), dotAll, s, i))
    decreases hs, 0, 0, 0, 0, 0
  {
    if hs != [] {
      AloneEnds(hs[0], dotAll, s, i);
      BranchesEnds(hs[1..], dotAll, s, i);
      PlaceAlone(hs[0]);
      assert Placed(hs, false) == [Alone(hs[0])] + Placed(hs[1..], false);
      assert Placed(hs, false)[1..] == Placed(hs[1..], false);
      assert ErasedAll(hs)[1..] == ErasedAll(hs[1..]);
      DoubledAppend(Ends(Erased(hs[0]), dotAll, s, i), EndsOfBranches(ErasedAll(hs[1..]), dotAll, s, i));
    }
  }

  lemma {:induction false} FromEnds(h: Hir, dotAll: bool, s: bytes, lo: nat, starts: seq<nat>)
    requires Within(starts, lo, |s|) && Within(Doubled(starts), 2 * lo, |Wide(s)|)
    ensures EndsFrom(Alone(h), dotAll, Wide(s), 2 * lo, Doubled(starts)) == Doubled(EndsFrom(Erased(h), dotAll, s, lo, starts))
    decreases h, 3, |starts|, 0, 0, 0
  {
    if starts != [] {
      var rest := starts[1..];
      assert Doubled(starts)[1..] == Doubled(rest);
      AloneEnds(h, dotAll, s, starts[0]);
      FromEnds(h, dotAll, s, lo, rest);
      DoubledAppend(Ends(Erased(h), dotAll, s, starts[0]), EndsFrom(Erased(h), dotAll, s, lo, rest));
    }
  }

  /** A node in a concatenation. */
  lemma PlaceFrom(h: Hir, dotAll: bool, mem: bytes, lo: nat, starts: seq<nat>)
    requires Within(starts, lo, |mem|)
    ensures EndsSeq(Place(h, true), dotAll, mem, lo, starts) == EndsFrom(Alone(h), dotAll, mem, lo, starts)
  {
    if OneByte(h) {
      ConcatFrom([h, NUL], dotAll, mem, lo, starts);
      GroupFrom(Concat([h, NUL]), dotAll, mem, lo, starts);
    } else {
      assert [Alone(h)][1..] == [];
    }
  }

  lemma {:induction false} GroupFrom(g: Hir, dotAll: bool, mem: bytes, lo: nat, starts: seq<nat>)
    requires Within(starts, lo, |mem|)
    ensures EndsFrom(Group(g), dotAll, mem, lo, starts) == EndsFrom(g, dotAll, mem, lo, starts)
    decreases |starts|
  {
    if starts != [] { GroupFrom(g, dotAll, mem, lo, starts[1..]); }
  }

  lemma {:induction false} PlacedEnds(hs: seq<Hir>, dotAll: bool, s: bytes, lo: nat, starts: seq<nat>)
    requires Within(starts, lo, |s|)
    ensures Within(Doubled(starts), 2 * lo, |Wide(s)|)
    ensures EndsSeq(Placed(hs, true), dotAll, Wide(s), 2 * lo, Doubled(starts))
         == Doubled(EndsSeq(ErasedAll(hs), dotAll, s, lo, starts))
    decreases hs, 0, 0, 0, 0, 0
  {
    DoubledWithin(starts, lo, |s|);
    if hs != [] {
      var w, next := Wide(s), EndsFrom(Erased(hs[0]), dotAll, s, lo, starts);
      FromEnds(hs[0], dotAll, s, lo, starts);
      PlaceFrom(hs[0], dotAll, w, 2 * lo, Doubled(starts));
      SeqAppend(Place(hs[0], true), Placed(hs[1..], true), dotAll, w, 2 * lo, Doubled(starts));
      assert ErasedAll(hs)[1..] == ErasedAll(hs[1..]);
      PlacedEnds(hs[1..], dotAll, s, lo, next);
    }
  }

  lemma {:induction false} TimesEnds(g: Hir, from: nat, to: Option<nat>, greedy: bool, dotAll: bool, s: bytes, i: nat)
    requires i <= |s|
    ensures EndsTimes(Alone(g), from, to, greedy, dotAll, Wide(s), 2 * i)
         == Doubled(EndsTimes(Erased(g), from, to, greedy, dotAll, s, i))
    decreases g, 4, |s| - i, from, 1, 0
  {
    var turns := Ends(Erased(g), dotAll, s, i);
    AloneEnds(g, dotAll, s, i);
    var stop: seq<nat> := if from == 0 then [i] else [];
    var more: seq<nat> := [];
    if to != Some(0) {
      more := EndsMore(Erased(g), from, to, greedy, dotAll, s, i, turns);
      MoreEnds(g, from, to, greedy, dotAll, s, i, turns);
    }
    DoubledAppend(more, stop);
    DoubledAppend(stop, more);
    assert Doubled(stop) == if from == 0 then [2 * i] else [];
  }

  lemma {:induction false} MoreEnds(g: Hir, from: nat, to: Option<nat>, greedy: bool, dotAll: bool, s: bytes, i: nat, turns: seq<nat>)
    requires i <= |s| && Within(turns, i, |s|)
    ensures Within(Doubled(turns), 2 * i, |Wide(s)|)
    ensures EndsMore(Alone(g), from, to, greedy, dotAll, Wide(s), 2 * i, Doubled(turns))
         == Doubled(EndsMore(Erased(g), from, to, greedy, dotAll, s, i, turns))
    decreases g, 4, |s| - i, from, 0, |turns|
  {
    DoubledWithin(turns, i, |s|);
    if turns != [] {
      var k, rest := turns[0], turns[1..];
      assert Doubled(turns)[1..] == Doubled(rest) && Doubled(turns)[0] == 2 * k;
      var first: seq<nat> := [];
      if !(k == i && from == 0) {
        first := EndsTimes(Erased(g), Fewer(from), FewerAtMost(to), greedy, dotAll, s, k);
        TimesEnds(g, Fewer(from), FewerAtMost(to), greedy, dotAll, s, k);
      }
      MoreEnds(g, from, to, greedy, dotAll, s, i, rest);
      DoubledAppend(first, EndsMore(Erased(g), from, to, greedy, dotAll, s, i, rest));
    }
  }

  /** Greediness matters: on `aa`, `a+` ends at 2 first, and `a+?` at 1. */
  lemma GreedyFirst(b: byte, dotAll: bool)
    ensures Ends(Repetition(Literal(b), OneOrMore, true), dotAll, [b, b], 0) == [2, 1]
    ensures Ends(Repetition(Literal(b), OneOrMore, false), dotAll, [b, b], 0) == [1, 2]
  {
    RepetitionOfByte(b, true, dotAll);
    RepetitionOfByte(b, false, dotAll);
    hide Ends, EndsTimes;
    TurnsOfByte(b, true, dotAll);
    TurnsOfByte(b, false, dotAll);
  }

  lemma RepetitionOfByte(b: byte, greedy: bool, dotAll: bool)
    ensures Ends(Repetition(Literal(b), OneOrMore, greedy), dotAll, [b, b], 0)
         == EndsTimes(Literal(b), 1, None, greedy, dotAll, [b, b], 0)
  {
    hide EndsTimes;
  }

  lemma TurnsOfByte(b: byte, greedy: bool, dotAll: bool)
    ensures EndsTimes(Literal(b), 1, None, greedy, dotAll, [b, b], 0) == if greedy then [2, 1] else [1, 2]
  {
    hide EndsTimes;
    OneTurn(b, 0, greedy, dotAll, 2);
    OneTurn(b, 0, greedy, dotAll, 1);
    OneTurn(b, 1, greedy, dotAll, 0);
  }

  /** A turn of the repetition of a byte. */
  lemma OneTurn(b: byte, from: nat, greedy: bool, dotAll: bool, i: nat)
    requires i <= 2
    ensures var more := if i == 2 then [] else EndsTimes(Literal(b), Fewer(from), None, greedy, dotAll, [b, b], i + 1);
            var stop := if from == 0 then [i] else [];
            EndsTimes(Literal(b), from, None, greedy, dotAll, [b, b], i) == if greedy then more + stop else stop + more
  {
    var g, mem := Literal(b), [b, b];
    if i < 2 {
      var turns := Ends(g, dotAll, mem, i);
      assert turns == [i + 1] && turns[1..] == [];
      var more := EndsTimes(g, Fewer(from), None, greedy, dotAll, mem, i + 1);
      assert EndsMore(g, from, None, greedy, dotAll, mem, i, turns) == more + [] == more;
    }
  }
}
