/** The rewriting of a HIR so that it matches UCS-2 text (`matcher/widener.rs`). */
module Widener {
  import opened Base
  import opened Hir
  import opened Visitor
  import opened Words
  import opened Bitmaps

  // ----- The visitor -----

  datatype StackLevel = StackLevel(hirs: seq<Hir>, inConcat: bool)

  datatype State = State(hir: Option<Hir>, stack: seq<StackLevel>)

  const NUL := Literal(0)

  /** Put a node at the top level, which must be free, or in the current level. */
  function Add(s: State, h: Hir): Run<State> {
    if s.stack == [] then
      if s.hir.Some? then Panicked else Running(s.(hir := Some(h)))
    else
      var pos := |s.stack| - 1;
      Running(s.(stack := s.stack[pos := s.stack[pos].(hirs := s.stack[pos].hirs + [h])]))
  }

  /** The same for a node that needs a nul byte after it. */
  function AddWide(s: State, h: Hir): Run<State> {
    if s.stack == [] then
      if s.hir.Some? then Panicked else Running(s.(hir := Some(Concat([h, NUL]))))
    else
      var pos := |s.stack| - 1;
      var level := s.stack[pos];
      var added := if level.inConcat then [h, NUL] else [Group(Concat([h, NUL]))];
      Running(s.(stack := s.stack[pos := level.(hirs := level.hirs + added)]))
  }

  function Pre(s: State, h: Hir): (State, Action) {
    (if h.Repetition? || h.Group? || h.Alternation? then s.(stack := s.stack + [StackLevel([], false)])
     else if h.Concat? then s.(stack := s.stack + [StackLevel([], true)])
     else s,
     Continue)
  }

  function Post(s: State, h: Hir): Run<State> {
    if h.Empty? then Add(s, Hir.Empty)
    else if OneByte(h) then AddWide(s, h)
    else if h.Assertion? then Add(s, if h.kind.StartLine? || h.kind.EndLine? then h else Hir.Empty)
    else if s.stack == [] then Panicked
    else
      var hirs := s.stack[|s.stack| - 1].hirs;
      var s1 := s.(stack := s.stack[..|s.stack| - 1]);
      match h
      case Repetition(_, kind, greedy) =>
        if hirs == [] then Panicked else Add(s1, Repetition(hirs[|hirs| - 1], kind, greedy))
      case Group(_) => if hirs == [] then Panicked else Add(s1, Group(hirs[|hirs| - 1]))
      case Concat(_) => Add(s1, Concat(hirs))
      case _ => Add(s1, Alternation(hirs))
  }

  function WidenerVisitor(): Visitor<Run<State>> {
    Visitor(
      (r: Run<State>, h: Hir) =>
        if r.Panicked? then (r, Skip) else var (s, action) := Pre(r.state, h); (Running(s), action),
      (r: Run<State>) => r,
      (r: Run<State>, h: Hir) => if r.Panicked? then r else Post(r.state, h))
  }

  // ----- The same visitor, updating its fields in place -----

  class HirWidener {
    var hir: Option<Hir>
    var stack: seq<StackLevel>

    ghost function View(): State
      reads this
    {
      State(hir, stack)
    }

    constructor ()
      ensures View() == State(None, [])
    {
      hir, stack := None, [];
    }

    method AddNode(h: Hir)
      requires stack == [] ==> hir.None?
      modifies this
      ensures Running(View()) == Add(old(View()), h)
    {
      if stack == [] {
        hir := Some(h);
      } else {
        var pos := |stack| - 1;
        stack := stack[pos := StackLevel(stack[pos].hirs + [h], stack[pos].inConcat)];
      }
    }

    method AddWideNode(h: Hir)
      requires stack == [] ==> hir.None?
      modifies this
      ensures Running(View()) == AddWide(old(View()), h)
    {
      if stack == [] {
        hir := Some(Concat([h, NUL]));
      } else {
        var pos := |stack| - 1;
        var level := stack[pos];
        if level.inConcat {
          level := level.(hirs := level.hirs + [h]);
          level := level.(hirs := level.hirs + [NUL]);
          assert level.hirs == stack[pos].hirs + [h, NUL];
        } else {
          level := level.(hirs := level.hirs + [Group(Concat([h, NUL]))]);
        }
        stack := stack[pos := level];
      }
    }

    method VisitPre(h: Hir) returns (action: Action)
      modifies this
      ensures (View(), action) == Pre(old(View()), h)
    {
      match h {
        case Repetition(_, _, _) => stack := stack + [StackLevel([], false)];
        case Group(_) => stack := stack + [StackLevel([], false)];
        case Alternation(_) => stack := stack + [StackLevel([], false)];
        case Concat(_) => stack := stack + [StackLevel([], true)];
        case _ =>
      }
      return Continue;
    }

    /** The panics of the source are the `Panicked` outcomes of `Post`. */
    method VisitPost(h: Hir)
      requires Post(View(), h).Running?
      modifies this
      ensures Running(View()) == Post(old(View()), h)
    {
      match h {
        case Empty => AddNode(Hir.Empty);
        case Dot => AddWideNode(h);
        case Literal(_) => AddWideNode(h);
        case Mask(_, _, _) => AddWideNode(h);
        case Class(_) => AddWideNode(h);
        case Assertion(kind) =>
          if kind.StartLine? || kind.EndLine? {
            AddNode(h);
          } else {
            AddNode(Hir.Empty);
          }
        case Repetition(_, kind, greedy) =>
          var hirs := PopLevel();
          AddNode(Repetition(hirs[|hirs| - 1], kind, greedy));
        case Group(_) =>
          var hirs := PopLevel();
          AddNode(Group(hirs[|hirs| - 1]));
        case Concat(_) =>
          var hirs := PopLevel();
          AddNode(Concat(hirs));
        case Alternation(_) =>
          var hirs := PopLevel();
          AddNode(Alternation(hirs));
      }
    }

    method PopLevel() returns (hirs: seq<Hir>)
      requires stack != []
      modifies this`stack
      ensures stack == old(stack)[..|old(stack)| - 1]
      ensures hirs == old(stack)[|old(stack)| - 1].hirs
    {
      hirs := stack[|stack| - 1].hirs;
      stack := stack[..|stack| - 1];
    }
  }

  // ----- The widened node, by recursion on the node -----

  function Widened(h: Hir): Hir
    decreases h, 1
  {
    match h
    case Empty => Hir.Empty
    case Assertion(kind) => if kind.StartLine? || kind.EndLine? then h else Hir.Empty
    case Repetition(g, kind, greedy) => Repetition(Alone(g), kind, greedy)
    case Group(g) => Group(Alone(g))
    case Concat(hs) => Concat(Placed(hs, true))
    case Alternation(hs) => Alternation(Placed(hs, false))
    case _ => Concat([h, NUL])
  }

  /** The widened node where exactly one node must stand. */
  function Alone(h: Hir): Hir
    decreases h, 2
  {
    if OneByte(h) then Group(Concat([h, NUL])) else Widened(h)
  }

  /** What a node adds to its level. */
  function Place(h: Hir, inConcat: bool): seq<Hir>
    decreases h, 3
  {
    if OneByte(h) && inConcat then [h, NUL] else [Alone(h)]
  }

  function Placed(hs: seq<Hir>, inConcat: bool): seq<Hir>
    decreases hs, 0
  {
    if hs == [] then [] else Place(hs[0], inConcat) + Placed(hs[1..], inConcat)
  }

  lemma AddInLevel(top: Option<Hir>, stack: seq<StackLevel>, level: StackLevel, h: Hir)
    ensures var s := State(top, stack + [level]);
      (if OneByte(h) then AddWide(s, h) else Add(s, Widened(h)))
        == Running(State(top, stack + [level.(hirs := level.hirs + Place(h, level.inConcat))]))
  {
    var next := level.(hirs := level.hirs + Place(h, level.inConcat));
    assert (stack + [level])[|stack| := next] == stack + [next];
  }

  /** Walking a node adds its widened form: to the current level or, at the top, as the result. */
  lemma {:induction false} WalkAdds(h: Hir, s: State)
    ensures Walk(WidenerVisitor(), h, Running(s)) == if OneByte(h) then AddWide(s, h) else Add(s, Widened(h))
    decreases h, 1
  {
    match h
    case Repetition(g, _, _) => WalkChildAdds(h, g, s);
    case Group(g) => WalkChildAdds(h, g, s);
    case Concat(hs) => WalkListAdds(h, hs, s);
    case Alternation(hs) => WalkListAdds(h, hs, s);
    case _ =>
  }

  lemma PopPushed(stack: seq<StackLevel>, level: StackLevel)
    ensures (stack + [level])[..|stack + [level]| - 1] == stack
  {
  }

  lemma {:induction false} WalkChildAdds(h: Hir, g: Hir, s: State)
    requires (h.Group? && h.hir == g) || (h.Repetition? && h.inner == g)
    ensures Walk(WidenerVisitor(), h, Running(s)) == Add(s, Widened(h))
    decreases g, 3
  {
    hide Walk, WalkAll, Place, Placed;
    var entered := State(s.hir, s.stack + [StackLevel([], false)]);
    var left := State(s.hir, s.stack + [StackLevel([Alone(g)], false)]);
    WalkInLevel(g, s.hir, s.stack, StackLevel([], false));
    PlaceAlone(g);
    assert [] + [Alone(g)] == [Alone(g)];
    WalkOne(WidenerVisitor(), g, false, Running(entered));
    WalkCompound(WidenerVisitor(), h, Running(s), Running(entered), Running(left));
    PopPushed(s.stack, StackLevel([Alone(g)], false));
  }

  lemma PlaceAlone(g: Hir)
    ensures Place(g, false) == [Alone(g)]
  {
  }

  lemma {:induction false} WalkListAdds(h: Hir, hs: seq<Hir>, s: State)
    requires h == Concat(hs) || h == Alternation(hs)
    ensures Walk(WidenerVisitor(), h, Running(s)) == Add(s, Widened(h))
    decreases hs, 1
  {
    var level := StackLevel([], h.Concat?);
    WalkAllIsPlaced(hs, h.Alternation?, s.hir, s.stack, level);
    var placed := Placed(hs, level.inConcat);
    assert [] + placed == placed;
    PopPushed(s.stack, StackLevel(placed, level.inConcat));
  }

  lemma {:induction false} WalkInLevel(h: Hir, top: Option<Hir>, stack: seq<StackLevel>, level: StackLevel)
    ensures Walk(WidenerVisitor(), h, Running(State(top, stack + [level])))
         == Running(State(top, stack + [level.(hirs := level.hirs + Place(h, level.inConcat))]))
    ensures (stack + [level.(hirs := level.hirs + Place(h, level.inConcat))])[..|stack|] == stack
    decreases h, 2
  {
    WalkAdds(h, State(top, stack + [level]));
    AddInLevel(top, stack, level, h);
  }

  lemma {:induction false} WalkAllIsPlaced(hs: seq<Hir>, alternated: bool, top: Option<Hir>, stack: seq<StackLevel>,
                                           level: StackLevel)
    ensures var done := Running(State(top, stack + [level.(hirs := level.hirs + Placed(hs, level.inConcat))]));
      && WalkMore(WidenerVisitor(), hs, alternated, Running(State(top, stack + [level]))) == done
      && WalkAll(WidenerVisitor(), hs, alternated, Running(State(top, stack + [level]))) == done
    decreases hs, 0
  {
    hide Walk, Place, Widened, Alone, Add, AddWide, Pre, Post, OneByte;
    if hs == [] {
      assert level.hirs + [] == level.hirs;
    } else {
      var next := level.(hirs := level.hirs + Place(hs[0], level.inConcat));
      WalkInLevel(hs[0], top, stack, level);
      WalkAllIsPlaced(hs[1..], alternated, top, stack, next);
      assert next.hirs + Placed(hs[1..], level.inConcat) == level.hirs + Placed(hs, level.inConcat);
    }
  }

  // ----- The meaning of the widened node -----

  /** `widen_literal`, and `string_to_wide`: a nul byte after each byte. */
  function Wide(s: bytes): (r: bytes)
    ensures |r| == 2 * |s|
  {
    if s == [] then [] else [s[0], 0] + Wide(s[1..])
  }

  lemma {:induction false} WideAt(s: bytes, k: nat)
    requires k < |s|
    ensures Wide(s)[2 * k] == s[k] && Wide(s)[2 * k + 1] == 0
  {
    if k > 0 { WideAt(s[1..], k - 1); }
  }

  lemma {:induction false} WideAppend(x: bytes, y: bytes)
    ensures Wide(x + y) == Wide(x) + Wide(y)
  {
    if x == [] {
      assert x + y == y;
    } else {
      assert (x + y)[0] == x[0] && (x + y)[1..] == x[1..] + y;
      WideAppend(x[1..], y);
    }
  }

  /** The loop of `widen_literal`. */
  method WidenLiteral(literal: bytes) returns (newLit: bytes)
    ensures newLit == Wide(literal)
  {
    newLit := [];
    for k := 0 to |literal|
      invariant newLit == Wide(literal[..k])
    {
      WideAppend(literal[..k], [literal[k]]);
      assert literal[..k + 1] == literal[..k] + [literal[k]];
      assert Wide([literal[k]]) == [literal[k], 0] + Wide([]);
      newLit := newLit + [literal[k]];
      newLit := newLit + [0];
    }
    assert literal[..|literal|] == literal;
  }

  lemma MatchesByteNul(h: Hir, dotAll: bool, mem: bytes, i: nat, j: nat)
    requires OneByte(h)
    ensures MatchesSeq([h, NUL], dotAll, mem, i, j)
       <==> j == i + 2 && j <= |mem| && Accepts(h, dotAll, mem[i]) && mem[i + 1] == 0
  {
    var hs := [h, NUL];
    assert hs[1..] == [NUL];
    if MatchesSeq(hs, dotAll, mem, i, j) {
      var k := MatchesSeqFirst(hs, dotAll, mem, i, j);
      MatchesSeqOne(NUL, dotAll, mem, k, j);
    }
    if j == i + 2 && j <= |mem| && Accepts(h, dotAll, mem[i]) && mem[i + 1] == 0 {
      MatchesSeqOne(NUL, dotAll, mem, i + 1, j);
      assert Matches(h, dotAll, mem, i, i + 1) && MatchesSeq(hs[1..], dotAll, mem, i + 1, j);
    }
  }

  /** What a node adds to its level matches what `Alone` does, whatever the level. */
  lemma MatchesPlace(h: Hir, inConcat: bool, dotAll: bool, mem: bytes, i: nat, j: nat)
    ensures MatchesSeq(Place(h, inConcat), dotAll, mem, i, j) <==> Matches(Alone(h), dotAll, mem, i, j)
  {
    MatchesSeqOne(Alone(h), dotAll, mem, i, j);
    if OneByte(h) {
      MatchesByteNul(h, dotAll, mem, i, j);
      assert Matches(Alone(h), dotAll, mem, i, j) <==> (i <= j <= |mem| && Matches(Concat([h, NUL]), dotAll, mem, i, j));
    }
  }

  /** `Alone` and `Widened` match the same. */
  lemma MatchesAlone(h: Hir, dotAll: bool, mem: bytes, i: nat, j: nat)
    ensures Matches(Alone(h), dotAll, mem, i, j) <==> Matches(Widened(h), dotAll, mem, i, j)
  {
  }

  // ----- Every match of a widened node has an even length -----

  lemma {:induction false} EvenLength(h: Hir, dotAll: bool, mem: bytes, i: nat, j: nat)
    requires Matches(Widened(h), dotAll, mem, i, j)
    ensures (j - i) % 2 == 0
    decreases h, 1, 0
  {
    match h
    case Group(g) => MatchesAlone(g, dotAll, mem, i, j); EvenLength(g, dotAll, mem, i, j);
    case Repetition(g, kind, _) =>
      var n: nat :| CountAllowed(kind, n) && MatchesTimes(Alone(g), n, dotAll, mem, i, j);
      EvenLengthTimes(g, n, dotAll, mem, i, j);
    case Concat(hs) => EvenLengthSeq(hs, dotAll, mem, i, j);
    case Alternation(hs) =>
      var alts := Placed(hs, false);
      PlacedAlone(hs);
      var k :| 0 <= k < |alts| && Matches(alts[k], dotAll, mem, i, j);
      MatchesAlone(hs[k], dotAll, mem, i, j);
      EvenLength(hs[k], dotAll, mem, i, j);
    case Empty =>
    case Assertion(_) =>
    case _ => MatchesByteNul(h, dotAll, mem, i, j);
  }

  lemma {:induction false} PlacedAlone(hs: seq<Hir>)
    ensures |Placed(hs, false)| == |hs|
    ensures forall k :: 0 <= k < |hs| ==> Placed(hs, false)[k] == Alone(hs[k])
  {
    if hs != [] { PlacedAlone(hs[1..]); }
  }

  lemma {:induction false} EvenLengthTimes(g: Hir, n: nat, dotAll: bool, mem: bytes, i: nat, j: nat)
    requires MatchesTimes(Alone(g), n, dotAll, mem, i, j)
    ensures (j - i) % 2 == 0
    decreases g, 2, n
  {
    hide Matches, Widened, Alone;
    if n > 0 {
      var k: nat :| Matches(Alone(g), dotAll, mem, i, k) && MatchesTimes(Alone(g), n - 1, dotAll, mem, k, j);
      MatchesAlone(g, dotAll, mem, i, k);
      EvenLength(g, dotAll, mem, i, k);
      EvenLengthTimes(g, n - 1, dotAll, mem, k, j);
    }
  }

  lemma {:induction false} EvenLengthSeq(hs: seq<Hir>, dotAll: bool, mem: bytes, i: nat, j: nat)
    requires MatchesSeq(Placed(hs, true), dotAll, mem, i, j)
    ensures (j - i) % 2 == 0
    decreases hs, 0, 0
  {
    if hs != [] {
      var k := MatchesSeqSplit(Place(hs[0], true), Placed(hs[1..], true), dotAll, mem, i, j);
      MatchesPlace(hs[0], true, dotAll, mem, i, k);
      MatchesAlone(hs[0], dotAll, mem, i, k);
      EvenLength(hs[0], dotAll, mem, i, k);
      EvenLengthSeq(hs[1..], dotAll, mem, k, j);
    }
  }

  // ----- On widened text, the widened node matches what the node matches on the text -----

  lemma {:induction false} TextToWide(h: Hir, dotAll: bool, s: bytes, i: nat, j: nat)
    requires Matches(h, dotAll, s, i, j)
    ensures Matches(Widened(h), dotAll, Wide(s), 2 * i, 2 * j)
    decreases h, 1, 0
  {
    var w := Wide(s);
    match h
    case Group(g) => MatchesAlone(g, dotAll, w, 2 * i, 2 * j); TextToWide(g, dotAll, s, i, j);
    case Repetition(g, kind, _) =>
      var n: nat :| CountAllowed(kind, n) && MatchesTimes(g, n, dotAll, s, i, j);
      TextToWideTimes(g, n, dotAll, s, i, j);
      assert CountAllowed(kind, n) && MatchesTimes(Alone(g), n, dotAll, w, 2 * i, 2 * j);
    case Concat(hs) => TextToWideSeq(hs, dotAll, s, i, j);
    case Alternation(hs) =>
      var alts := Placed(hs, false);
      var k :| 0 <= k < |hs| && Matches(hs[k], dotAll, s, i, j);
      PlacedAlone(hs);
      TextToWide(hs[k], dotAll, s, i, j);
      MatchesAlone(hs[k], dotAll, w, 2 * i, 2 * j);
      assert Matches(alts[k], dotAll, w, 2 * i, 2 * j);
    case Empty =>
    case Assertion(_) =>
    case _ =>
      MatchesByteNul(h, dotAll, w, 2 * i, 2 * j);
      if i < |s| { WideAt(s, i); }
  }

  lemma {:induction false} TextToWideTimes(g: Hir, n: nat, dotAll: bool, s: bytes, i: nat, j: nat)
    requires MatchesTimes(g, n, dotAll, s, i, j)
    ensures MatchesTimes(Alone(g), n, dotAll, Wide(s), 2 * i, 2 * j)
    decreases g, 2, n
  {
    if n > 0 {
      var k := MatchesTimesFirst(g, n, dotAll, s, i, j);
      MatchesAlone(g, dotAll, Wide(s), 2 * i, 2 * k);
      TextToWide(g, dotAll, s, i, k);
      TextToWideTimes(g, n - 1, dotAll, s, k, j);
    }
  }

  lemma {:induction false} TextToWideSeq(hs: seq<Hir>, dotAll: bool, s: bytes, i: nat, j: nat)
    requires MatchesSeq(hs, dotAll, s, i, j)
    ensures MatchesSeq(Placed(hs, true), dotAll, Wide(s), 2 * i, 2 * j)
    decreases hs, 0, 0
  {
    var w := Wide(s);
    if hs != [] {
      var k := MatchesSeqFirst(hs, dotAll, s, i, j);
      TextToWide(hs[0], dotAll, s, i, k);
      MatchesAlone(hs[0], dotAll, w, 2 * i, 2 * k);
      MatchesPlace(hs[0], true, dotAll, w, 2 * i, 2 * k);
      TextToWideSeq(hs[1..], dotAll, s, k, j);
      MatchesSeqJoin(Place(hs[0], true), Placed(hs[1..], true), dotAll, w, 2 * i, 2 * k, 2 * j);
    }
  }

  lemma PlacedFirst(hs: seq<Hir>, dotAll: bool, w: bytes, i: nat, j: nat) returns (k: nat)
    requires hs != [] && MatchesSeq(Placed(hs, true), dotAll, w, 2 * i, j)
    ensures Matches(Widened(hs[0]), dotAll, w, 2 * i, 2 * k) && MatchesSeq(Placed(hs[1..], true), dotAll, w, 2 * k, j)
  {
    var m := MatchesSeqSplit(Place(hs[0], true), Placed(hs[1..], true), dotAll, w, 2 * i, j);
    MatchesPlace(hs[0], true, dotAll, w, 2 * i, m);
    AloneIsEven(hs[0], dotAll, w, 2 * i, m);
    k := m / 2;
    assert 2 * k == m;
  }

  lemma AloneTimesFirst(g: Hir, n: nat, dotAll: bool, w: bytes, i: nat, j: nat) returns (k: nat)
    requires n > 0 && MatchesTimes(Alone(g), n, dotAll, w, 2 * i, j)
    ensures Matches(Widened(g), dotAll, w, 2 * i, 2 * k) && MatchesTimes(Alone(g), n - 1, dotAll, w, 2 * k, j)
  {
    var a := Alone(g);
    var m := MatchesTimesFirst(a, n, dotAll, w, 2 * i, j);
    AloneIsEven(g, dotAll, w, 2 * i, m);
    k := m / 2;
    assert 2 * k == m;
  }

  lemma AloneIsEven(g: Hir, dotAll: bool, mem: bytes, i: nat, j: nat)
    requires Matches(Alone(g), dotAll, mem, i, j)
    ensures Matches(Widened(g), dotAll, mem, i, j) && i <= j && (j - i) % 2 == 0
  {
    MatchesAlone(g, dotAll, mem, i, j);
    EvenLength(g, dotAll, mem, i, j);
  }

  /** The converse holds without word boundaries, which widening drops. */
  lemma {:induction false} WideToText(h: Hir, dotAll: bool, s: bytes, i: nat, j: nat)
    requires Matches(Widened(h), dotAll, Wide(s), 2 * i, 2 * j) && !Has(h, BoundaryAssertion)
    ensures Matches(h, dotAll, s, i, j)
    decreases h, 1, 0
  {
    var w := Wide(s);
    match h
    case Group(g) => MatchesAlone(g, dotAll, w, 2 * i, 2 * j); WideToText(g, dotAll, s, i, j);
    case Repetition(g, kind, _) =>
      var n: nat :| CountAllowed(kind, n) && MatchesTimes(Alone(g), n, dotAll, w, 2 * i, 2 * j);
      WideToTextTimes(g, n, dotAll, s, i, j);
      assert CountAllowed(kind, n) && MatchesTimes(g, n, dotAll, s, i, j);
    case Concat(hs) => WideToTextSeq(hs, dotAll, s, i, j);
    case Alternation(hs) =>
      var alts := Placed(hs, false);
      PlacedAlone(hs);
      var k :| 0 <= k < |alts| && Matches(alts[k], dotAll, w, 2 * i, 2 * j);
      HasOf(hs, BoundaryAssertion, k);
      MatchesAlone(hs[k], dotAll, w, 2 * i, 2 * j);
      WideToText(hs[k], dotAll, s, i, j);
    case Empty =>
    case Assertion(_) =>
    case _ =>
      MatchesByteNul(h, dotAll, w, 2 * i, 2 * j);
      if i < |s| { WideAt(s, i); }
  }

  lemma {:induction false} WideToTextTimes(g: Hir, n: nat, dotAll: bool, s: bytes, i: nat, j: nat)
    requires MatchesTimes(Alone(g), n, dotAll, Wide(s), 2 * i, 2 * j) && !Has(g, BoundaryAssertion)
    ensures MatchesTimes(g, n, dotAll, s, i, j)
    decreases g, 2, n
  {
    var w := Wide(s);
    if n > 0 {
      var k := AloneTimesFirst(g, n, dotAll, w, i, 2 * j);
      WideToText(g, dotAll, s, i, k);
      WideToTextTimes(g, n - 1, dotAll, s, k, j);
    }
  }

  lemma {:induction false} WideToTextSeq(hs: seq<Hir>, dotAll: bool, s: bytes, i: nat, j: nat)
    requires MatchesSeq(Placed(hs, true), dotAll, Wide(s), 2 * i, 2 * j) && !HasAny(hs, BoundaryAssertion)
    ensures MatchesSeq(hs, dotAll, s, i, j)
    decreases hs, 0, 0
  {
    var w := Wide(s);
    if hs != [] {
      var k := PlacedFirst(hs, dotAll, w, i, 2 * j);
      WideToText(hs[0], dotAll, s, i, k);
      WideToTextSeq(hs[1..], dotAll, s, k, j);
    }
  }

  // ----- In any memory -----

  /** Widening adds no node of kind `k`, if neither a nul byte nor an empty node is one. */
  lemma {:induction false} WidenedHas(h: Hir, k: Kind)
    requires !Has(h, k)
    ensures !Has(Widened(h), k) && !Has(Alone(h), k)
    decreases h, 1
  {
    HasAnyAppend([h], [NUL], k);
    assert [h] + [NUL] == [h, NUL];
    HasAnyOne(h, k);
    HasAnyOne(NUL, k);
    match h
    case Group(g) => WidenedHas(g, k);
    case Repetition(g, _, _) => WidenedHas(g, k);
    case Concat(hs) => PlacedHas(hs, true, k);
    case Alternation(hs) => PlacedHas(hs, false, k);
    case _ =>
  }

  lemma PlaceHas(h: Hir, inConcat: bool, k: Kind)
    requires !Has(h, k) && !Has(Alone(h), k)
    ensures !HasAny(Place(h, inConcat), k)
  {
    HasAnyOne(Alone(h), k);
    HasAnyAppend([h], [NUL], k);
    assert [h] + [NUL] == [h, NUL];
    HasAnyOne(h, k);
    HasAnyOne(NUL, k);
  }

  lemma {:induction false} PlacedHas(hs: seq<Hir>, inConcat: bool, k: Kind)
    requires !HasAny(hs, k)
    ensures !HasAny(Placed(hs, inConcat), k)
    decreases hs, 0
  {
    if hs != [] {
      WidenedHas(hs[0], k);
      PlaceHas(hs[0], inConcat, k);
      PlacedHas(hs[1..], inConcat, k);
      HasAnyAppend(Place(hs[0], inConcat), Placed(hs[1..], inConcat), k);
    }
  }

  /** Wherever a widened node matches, it matches the wide form of some text. */
  lemma {:induction false} MatchIsWide(h: Hir, dotAll: bool, mem: bytes, i: nat, j: nat) returns (s: bytes)
    requires Matches(Widened(h), dotAll, mem, i, j)
    ensures mem[i..j] == Wide(s)
    decreases h, 1, 0
  {
    s := [];
    match h
    case Group(g) => MatchesAlone(g, dotAll, mem, i, j); s := MatchIsWide(g, dotAll, mem, i, j);
    case Repetition(g, kind, _) =>
      var n: nat :| CountAllowed(kind, n) && MatchesTimes(Alone(g), n, dotAll, mem, i, j);
      s := TimesIsWide(g, n, dotAll, mem, i, j);
    case Concat(hs) => s := SeqIsWide(hs, dotAll, mem, i, j);
    case Alternation(hs) =>
      var alts := Placed(hs, false);
      PlacedAlone(hs);
      var k :| 0 <= k < |alts| && Matches(alts[k], dotAll, mem, i, j);
      MatchesAlone(hs[k], dotAll, mem, i, j);
      s := MatchIsWide(hs[k], dotAll, mem, i, j);
    case Empty =>
    case Assertion(_) =>
    case _ =>
      MatchesByteNul(h, dotAll, mem, i, j);
      s := [mem[i]];
      assert Wide(s) == [mem[i], 0] + Wide([]);
  }

  lemma {:induction false} TimesIsWide(g: Hir, n: nat, dotAll: bool, mem: bytes, i: nat, j: nat) returns (s: bytes)
    requires MatchesTimes(Alone(g), n, dotAll, mem, i, j)
    ensures i <= j <= |mem| && mem[i..j] == Wide(s)
    decreases g, 2, n
  {
    s := [];
    if n > 0 {
      var k := MatchesTimesFirst(Alone(g), n, dotAll, mem, i, j);
      AloneIsEven(g, dotAll, mem, i, k);
      var x := MatchIsWide(g, dotAll, mem, i, k);
      var y := TimesIsWide(g, n - 1, dotAll, mem, k, j);
      WideAppend(x, y);
      assert mem[i..j] == mem[i..k] + mem[k..j];
      s := x + y;
    }
  }

  lemma {:induction false} SeqIsWide(hs: seq<Hir>, dotAll: bool, mem: bytes, i: nat, j: nat) returns (s: bytes)
    requires MatchesSeq(Placed(hs, true), dotAll, mem, i, j)
    ensures i <= j <= |mem| && mem[i..j] == Wide(s)
    decreases hs, 0, 0
  {
    s := [];
    if hs != [] {
      var k := MatchesSeqSplit(Place(hs[0], true), Placed(hs[1..], true), dotAll, mem, i, j);
      MatchesPlace(hs[0], true, dotAll, mem, i, k);
      AloneIsEven(hs[0], dotAll, mem, i, k);
      var x := MatchIsWide(hs[0], dotAll, mem, i, k);
      var y := SeqIsWide(hs[1..], dotAll, mem, k, j);
      WideAppend(x, y);
      assert mem[i..j] == mem[i..k] + mem[k..j];
      s := x + y;
    }
  }

  /** Without assertions, in any memory, the widened HIR matches exactly the wide forms of the texts that the HIR
      matches. */
  lemma WidenedLanguage(h: Hir, dotAll: bool, mem: bytes, i: nat, j: nat)
    requires AssertionFree(h) && i <= j <= |mem|
    ensures Matches(Widened(h), dotAll, mem, i, j)
       <==> exists s :: mem[i..j] == Wide(s) && Matches(h, dotAll, s, 0, |s|)
  {
    if Matches(Widened(h), dotAll, mem, i, j) {
      var s := MatchIsWide(h, dotAll, mem, i, j);
      AnywhereIsWhole(h, dotAll, mem, i, j, s);
      WideToText(h, dotAll, s, 0, |s|);
    }
    if s :| mem[i..j] == Wide(s) && Matches(h, dotAll, s, 0, |s|) {
      TextToWide(h, dotAll, s, 0, |s|);
      AnywhereIsWhole(h, dotAll, mem, i, j, s);
    }
  }

  lemma AnywhereIsWhole(h: Hir, dotAll: bool, mem: bytes, i: nat, j: nat, s: bytes)
    requires AssertionFree(h) && i <= j <= |mem| && mem[i..j] == Wide(s)
    ensures Matches(Widened(h), dotAll, mem, i, j) <==> Matches(Widened(h), dotAll, Wide(s), 2 * 0, 2 * |s|)
  {
    var r, w := Widened(h), Wide(s);
    WidenedHas(h, LineAssertion);
    WidenedHas(h, BoundaryAssertion);
    assert w[2 * 0..2 * |s|] == w;
    assert SameBytes(mem, i, j, w, 2 * 0, 2 * |s|) && SameBytes(w, 2 * 0, 2 * |s|, mem, i, j);
    if Matches(r, dotAll, mem, i, j) { MatchesLocal(r, dotAll, mem, i, j, w, 2 * 0, 2 * |s|); }
    if Matches(r, dotAll, w, 2 * 0, 2 * |s|) { MatchesLocal(r, dotAll, w, 2 * 0, 2 * |s|, mem, i, j); }
  }

  // ----- Word boundaries -----

  /** The HIR without its word boundaries, which match anywhere. */
  function Erased(h: Hir): Hir
    decreases h, 1
  {
    match h
    case Assertion(kind) => if kind.StartLine? || kind.EndLine? then h else Hir.Empty
    case Repetition(g, kind, greedy) => Repetition(Erased(g), kind, greedy)
    case Group(g) => Group(Erased(g))
    case Concat(hs) => Concat(ErasedAll(hs))
    case Alternation(hs) => Alternation(ErasedAll(hs))
    case _ => h
  }

  function ErasedAll(hs: seq<Hir>): seq<Hir>
    decreases hs, 0
  {
    if hs == [] then [] else [Erased(hs[0])] + ErasedAll(hs[1..])
  }

  /** Widening does not see word boundaries, and none is left. */
  lemma {:induction false} ErasedWidens(h: Hir)
    ensures Widened(Erased(h)) == Widened(h) && Alone(Erased(h)) == Alone(h)
    ensures !Has(Erased(h), BoundaryAssertion)
    decreases h, 1
  {
    match h
    case Repetition(g, _, _) => ErasedWidens(g);
    case Group(g) => ErasedWidens(g);
    case Concat(hs) => ErasedAllWidens(hs, true);
    case Alternation(hs) => ErasedAllWidens(hs, false);
    case _ =>
  }

  lemma {:induction false} ErasedAllWidens(hs: seq<Hir>, inConcat: bool)
    ensures Placed(ErasedAll(hs), inConcat) == Placed(hs, inConcat)
    ensures !HasAny(ErasedAll(hs), BoundaryAssertion)
    decreases hs, 0
  {
    if hs != [] {
      ErasedWidens(hs[0]);
      ErasedAllWidens(hs[1..], inConcat);
      var rest := ErasedAll(hs[1..]);
      assert ErasedAll(hs)[1..] == rest;
      HasAnyAppend([Erased(hs[0])], rest, BoundaryAssertion);
      HasAnyOne(Erased(hs[0]), BoundaryAssertion);
    }
  }

  /** On widened text the widened HIR matches where the HIR does once its word boundaries are erased. */
  lemma WidenedMatchesErased(h: Hir, dotAll: bool, s: bytes, i: nat, j: nat)
    ensures Matches(Widened(h), dotAll, Wide(s), 2 * i, 2 * j) <==> Matches(Erased(h), dotAll, s, i, j)
  {
    ErasedWidens(h);
    if Matches(Erased(h), dotAll, s, i, j) { TextToWide(Erased(h), dotAll, s, i, j); }
    if Matches(Widened(h), dotAll, Wide(s), 2 * i, 2 * j) { WideToText(Erased(h), dotAll, s, i, j); }
  }

  /** Does the widened HIR match widened text exactly where the HIR matches the text? */
  ghost predicate WidensExactly(h: Hir, dotAll: bool) {
    forall s, i: nat, j: nat {:trigger Matches(h, dotAll, s, i, j)} ::
      Matches(h, dotAll, s, i, j) <==> Matches(Widened(h), dotAll, Wide(s), 2 * i, 2 * j)
  }

  /** Erasing word boundaries only adds matches. */
  lemma ErasedMatches(h: Hir, dotAll: bool, s: bytes, i: nat, j: nat)
    requires Matches(h, dotAll, s, i, j)
    ensures Matches(Erased(h), dotAll, s, i, j)
  {
    TextToWide(h, dotAll, s, i, j);
    WidenedMatchesErased(h, dotAll, s, i, j);
  }

  /** Widening is exact exactly for the HIR whose word boundaries rule out no match. */
  lemma WidensExactlyIff(h: Hir, dotAll: bool)
    ensures WidensExactly(h, dotAll)
       <==> forall s, i: nat, j: nat :: Matches(Erased(h), dotAll, s, i, j) ==> Matches(h, dotAll, s, i, j)
  {
    hide Matches, Widened, Erased, Wide;
    if WidensExactly(h, dotAll) {
      forall s, i: nat, j: nat | Matches(Erased(h), dotAll, s, i, j) ensures Matches(h, dotAll, s, i, j) {
        WidenedMatchesErased(h, dotAll, s, i, j);
      }
    } else {
      var s, i: nat, j: nat :| Matches(h, dotAll, s, i, j) != Matches(Widened(h), dotAll, Wide(s), 2 * i, 2 * j);
      WidenedMatchesErased(h, dotAll, s, i, j);
      if Matches(h, dotAll, s, i, j) { ErasedMatches(h, dotAll, s, i, j); }
      assert Matches(Erased(h), dotAll, s, i, j) && !Matches(h, dotAll, s, i, j);
    }
  }

  /** In particular for the HIR without word boundaries. */
  lemma WithoutBoundaries(h: Hir, dotAll: bool)
    requires !Has(h, BoundaryAssertion)
    ensures WidensExactly(h, dotAll)
  {
    hide Matches, Widened, Wide;
    forall s, i: nat, j: nat
      ensures Matches(h, dotAll, s, i, j) <==> Matches(Widened(h), dotAll, Wide(s), 2 * i, 2 * j)
    {
      if Matches(h, dotAll, s, i, j) { TextToWide(h, dotAll, s, i, j); }
      if Matches(Widened(h), dotAll, Wide(s), 2 * i, 2 * j) { WideToText(h, dotAll, s, i, j); }
    }
  }

  /** Between two letters, the widened boundary matches and the boundary does not. */
  lemma BoundaryWitness(dotAll: bool)
    ensures var h, s := Assertion(WordBoundary), [97, 97];
      Matches(Widened(h), dotAll, Wide(s), 2 * 1, 2 * 1) && !Matches(h, dotAll, s, 1, 1)
    ensures !WidensExactly(Assertion(WordBoundary), dotAll)
  {
    var h, s := Assertion(WordBoundary), [97, 97];
    assert Matches(Widened(h), dotAll, Wide(s), 2 * 1, 2 * 1) && !Matches(h, dotAll, s, 1, 1);
  }

  // ----- Literals of a widened HIR -----

  function WideAll(ws: seq<bytes>): (r: seq<bytes>)
    ensures |r| == |ws|
    ensures forall k :: 0 <= k < |ws| ==> r[k] == Wide(ws[k])
  {
    seq(|ws|, k requires 0 <= k < |ws| => Wide(ws[k]))
  }

  lemma {:induction false} WideProduct(xs: seq<bytes>, ys: seq<bytes>)
    ensures Product(WideAll(xs), WideAll(ys)) == WideAll(Product(xs, ys))
  {
    if xs != [] {
      WideProduct(xs[1..], ys);
      assert WideAll(xs)[1..] == WideAll(xs[1..]);
      forall k | 0 <= k < |ys| ensures Wide(xs[0]) + Wide(ys[k]) == Wide(xs[0] + ys[k]) { WideAppend(xs[0], ys[k]); }
      assert Prefixed(Wide(xs[0]), WideAll(ys)) == WideAll(Prefixed(xs[0], ys));
    }
  }

  lemma {:induction false} WidenedWellFormed(h: Hir)
    requires WellFormed(h)
    ensures WellFormed(Widened(h)) && WellFormed(Alone(h))
    ensures !h.Alternation? ==> !Alone(h).Alternation?
    decreases h, 1
  {
    match h
    case Group(g) => WidenedWellFormed(g);
    case Repetition(g, _, _) => WidenedWellFormed(g);
    case Concat(hs) => PlacedWellFormed(hs, true);
    case Alternation(hs) => PlacedWellFormed(hs, false); PlacedAlone(hs);
    case _ =>
  }

  lemma {:induction false} PlacedWellFormed(hs: seq<Hir>, inConcat: bool)
    requires AllWellFormed(hs)
    ensures AllWellFormed(Placed(hs, inConcat))
    ensures NoAlternation(hs) ==> NoAlternation(Placed(hs, inConcat))
    decreases hs, 0
  {
    if hs != [] {
      WidenedWellFormed(hs[0]);
      PlacedWellFormed(hs[1..], inConcat);
    }
  }

  ghost predicate NoAlternation(hs: seq<Hir>) {
    forall k :: 0 <= k < |hs| ==> !hs[k].Alternation?
  }

  /** Widening keeps a HIR expandable. */
  lemma WidenedExpandable(h: Hir)
    requires WellFormed(h) && !Has(h, NotLiteral)
    ensures WellFormed(Widened(h)) && !Has(Widened(h), NotLiteral)
    ensures WellFormed(Alone(h)) && !Has(Alone(h), NotLiteral)
    ensures forall c :: AllWellFormed(Place(h, c)) && !HasAny(Place(h, c), NotLiteral)
  {
    WidenedWellFormed(h);
    WidenedHas(h, NotLiteral);
    PlaceHas(h, true, NotLiteral);
    PlaceHas(h, false, NotLiteral);
  }

  lemma WordsOfByteNul(h: Hir)
    requires WellFormed(h) && !Has(h, NotLiteral) && OneByte(h)
    ensures AllWellFormed([h, NUL]) && !HasAny([h, NUL], NotLiteral)
    ensures WordsOfAll([h, NUL]) == WideAll(WordsOf(h))
  {
    hide WordsOfAll, Product;
    assert [h] + [NUL] == [h, NUL];
    HasAnyOne(h, NotLiteral);
    HasAnyOne(NUL, NotLiteral);
    WordsOfAllAppend([h], [NUL]);
    WordsOfAllOne(h);
    WordsOfAllOne(NUL);
    ProductSuffixed(WordsOf(h), [0]);
    SuffixedWide(h);
  }

  lemma SuffixedWide(h: Hir)
    requires WellFormed(h) && !Has(h, NotLiteral) && OneByte(h)
    ensures Suffixed(WordsOf(h), [0]) == WideAll(WordsOf(h))
  {
    forall k | 0 <= k < |WordsOf(h)| ensures WordsOf(h)[k] + [0] == Wide(WordsOf(h)[k]) {
      assert |WordsOf(h)[k]| == 1;
      WideOne(WordsOf(h)[k]);
    }
  }

  lemma WideOne(w: bytes)
    requires |w| == 1
    ensures Wide(w) == w + [0]
  {
    assert w[1..] == [];
  }

  /** Widening the HIR then expanding it gives the widened literals of the HIR, in the same order. */
  lemma {:induction false} WordsOfWidened(h: Hir)
    requires WellFormed(h) && !Has(h, NotLiteral)
    ensures WellFormed(Widened(h)) && !Has(Widened(h), NotLiteral)
    ensures WordsOf(Widened(h)) == WideAll(WordsOf(h))
    decreases h, 1
  {
    WidenedExpandable(h);
    match h
    case Group(g) => WordsOfAlone(g);
    case Concat(hs) => WordsOfPlaced(hs);
    case Alternation(hs) => WordsOfPlacedBranches(hs);
    case Empty => assert WideAll(WordsOf(h)) == [[]];
    case _ => WordsOfByteNul(h);
  }

  lemma {:induction false} WordsOfAlone(h: Hir)
    requires WellFormed(h) && !Has(h, NotLiteral)
    ensures WellFormed(Alone(h)) && !Has(Alone(h), NotLiteral)
    ensures WordsOf(Alone(h)) == WideAll(WordsOf(h))
    ensures forall c :: AllWellFormed(Place(h, c)) && !HasAny(Place(h, c), NotLiteral)
    ensures forall c :: WordsOfAll(Place(h, c)) == WideAll(WordsOf(h))
    decreases h, 2
  {
    WidenedExpandable(h);
    WordsOfWidened(h);
    WordsOfAllOne(Alone(h));
    if OneByte(h) { WordsOfByteNul(h); }
  }

  lemma {:induction false} WordsOfPlaced(hs: seq<Hir>)
    requires AllWellFormed(hs) && !HasAny(hs, NotLiteral)
    ensures AllWellFormed(Placed(hs, true)) && !HasAny(Placed(hs, true), NotLiteral)
    ensures WordsOfAll(Placed(hs, true)) == WideAll(WordsOfAll(hs))
    decreases hs, 0
  {
    if hs == [] {
      assert WideAll([[]]) == [[]];
    } else {
      WordsOfAlone(hs[0]);
      WordsOfPlaced(hs[1..]);
      WideProduct(WordsOf(hs[0]), WordsOfAll(hs[1..]));
      WordsOfAllAppend(Place(hs[0], true), Placed(hs[1..], true));
    }
  }

  lemma WordsOfBranchesCons(h: Hir, hs: seq<Hir>)
    requires AllWellFormed([h] + hs) && !HasAny([h] + hs, NotLiteral)
    requires AllWellFormed(hs) && !HasAny(hs, NotLiteral) && WellFormed(h) && !Has(h, NotLiteral)
    ensures WordsOfBranches([h] + hs) == WordsOf(h) + WordsOfBranches(hs)
  {
    assert ([h] + hs)[0] == h && ([h] + hs)[1..] == hs;
  }

  lemma WideAllAppend(xs: seq<bytes>, ys: seq<bytes>)
    ensures WideAll(xs + ys) == WideAll(xs) + WideAll(ys)
  {
  }

  lemma {:induction false} WordsOfPlacedBranches(hs: seq<Hir>)
    requires AllWellFormed(hs) && !HasAny(hs, NotLiteral)
    ensures AllWellFormed(Placed(hs, false)) && !HasAny(Placed(hs, false), NotLiteral)
    ensures WordsOfBranches(Placed(hs, false)) == WideAll(WordsOfBranches(hs))
    decreases hs, 0
  {
    PlacedWellFormed(hs, false);
    PlacedHas(hs, false, NotLiteral);
    if hs != [] {
      WordsOfAlone(hs[0]);
      WordsOfPlacedBranches(hs[1..]);
      WordsOfBranchesCons(Alone(hs[0]), Placed(hs[1..], false));
      WideAllAppend(WordsOf(hs[0]), WordsOfBranches(hs[1..]));
    }
  }

  /** From the empty stack, the widened HIR ends at the top level. */
  lemma WidenedFromNothing(h: Hir)
    ensures var init := State(None, []);
            (if OneByte(h) then AddWide(init, h) else Add(init, Widened(h))) == Running(State(Some(Widened(h)), []))
  {
  }
}
