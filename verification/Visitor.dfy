/** The walk over a HIR with a heap-allocated stack (`regex/visitor.rs`), for any visitor.

    The source moves the visitor into `visit` and threads it through; so does the model: a visitor is a
    state of type `S` and three functions that give its next state. */
module Visitor {
  import opened Base
  import opened Hir

  /** What to do with the children of the node just entered. */
  datatype Action = Continue | Skip

  datatype Visitor<!S> = Visitor(
    pre: (S, Hir) -> (S, Action),
    alternationIn: S -> S,
    post: (S, Hir) -> S)

  /** A visitor's state, or the panic that a failed `assert!`, `unwrap` or index aborts the walk with. */
  datatype Run<+S> = Running(state: S) | Panicked

  function Children(h: Hir): seq<Hir> {
    match h
    case Group(g) => [g]
    case Repetition(g, _, _) => [g]
    case Concat(hs) => hs
    case Alternation(hs) => hs
    case _ => []
  }

  // ----- Size of a node: how many nodes it holds -----

  ghost function Size(h: Hir): (n: nat)
    ensures n > 0
    decreases h, 1
  {
    match h
    case Group(g) => 1 + Size(g)
    case Repetition(g, _, _) => 1 + Size(g)
    case Concat(hs) => 1 + SizeAll(hs)
    case Alternation(hs) => 1 + SizeAll(hs)
    case _ => 1
  }

  ghost function SizeAll(hs: seq<Hir>): nat
    decreases hs, 0
  {
    if hs == [] then 0 else Size(hs[0]) + SizeAll(hs[1..])
  }

  lemma SizeChildren(h: Hir)
    ensures Size(h) == 1 + SizeAll(Children(h))
  {
    if h.Group? { assert Children(h) == [h.hir] && [h.hir][1..] == []; }
    if h.Repetition? { assert Children(h) == [h.inner] && [h.inner][1..] == []; }
  }

  // ----- Reference: structural recursion -----

  /** Enter the node, walk its children unless told to skip them, leave the node. */
  ghost function Walk<S>(v: Visitor<S>, h: Hir, s: S): S
    decreases Size(h), 0
  {
    var (s1, action) := v.pre(s, h);
    SizeChildren(h);
    v.post(if action.Continue? then WalkAll(v, Children(h), h.Alternation?, s1) else s1, h)
  }

  /** Walk siblings from left to right, with `alternationIn` between two of them if they are alternated. */
  ghost function WalkAll<S>(v: Visitor<S>, hs: seq<Hir>, alternated: bool, s: S): S
    decreases SizeAll(hs), 1
  {
    if hs == [] then s
    else WalkMore(v, hs[1..], alternated, Walk(v, hs[0], s))
  }

  /** The siblings left after at least one was walked. */
  ghost function WalkMore<S>(v: Visitor<S>, hs: seq<Hir>, alternated: bool, s: S): S
    decreases SizeAll(hs), 1
  {
    if hs == [] then s
    else WalkMore(v, hs[1..], alternated, Walk(v, hs[0], if alternated then v.alternationIn(s) else s))
  }

  lemma WalkOne<S>(v: Visitor<S>, h: Hir, alternated: bool, s: S)
    ensures WalkAll(v, [h], alternated, s) == Walk(v, h, s)
  {
    assert [h][1..] == [];
  }

  lemma WalkAllIsMore<S>(v: Visitor<S>, hs: seq<Hir>, s: S)
    ensures WalkAll(v, hs, false, s) == WalkMore(v, hs, false, s)
  {
  }

  lemma WalkMoreStep<S>(v: Visitor<S>, hs: seq<Hir>, s: S, next: S)
    requires hs != [] && Walk(v, hs[0], s) == next
    ensures WalkMore(v, hs, false, s) == WalkMore(v, hs[1..], false, next)
  {
  }

  /** Entering a compound, walking its children, and leaving it. */
  lemma WalkCompound<S>(v: Visitor<S>, h: Hir, s: S, entered: S, walked: S)
    requires v.pre(s, h) == (entered, Continue)
    requires WalkAll(v, Children(h), h.Alternation?, entered) == walked
    ensures Walk(v, h, s) == v.post(walked, h)
  {
  }

  // ----- The loop -----

  /** The child being visited, and its siblings left to visit. */
  datatype Frame = Frame(hir: Hir, rest: seq<Hir>, isAlternation: bool)

  function Next(f: Frame): (r: Option<Frame>)
    ensures r.None? <==> f.rest == []
    ensures r.Some? ==> [r.value.hir] + r.value.rest == f.rest && r.value.isAlternation == f.isAlternation
  {
    if f.rest == [] then None else Some(Frame(f.rest[0], f.rest[1..], f.isAlternation))
  }

  function BuildStackFrame(h: Hir): (r: Option<Frame>)
    ensures r.None? <==> Children(h) == []
    ensures r.Some? ==> [r.value.hir] + r.value.rest == Children(h) && r.value.isAlternation == h.Alternation?
  {
    match h
    case Group(g) => Some(Frame(g, [], false))
    case Repetition(g, _, _) => Some(Frame(g, [], false))
    case Concat(hs) => if hs == [] then None else Some(Frame(hs[0], hs[1..], false))
    case Alternation(hs) => if hs == [] then None else Some(Frame(hs[0], hs[1..], true))
    case _ => None
  }

  /** Each frame with the node it belongs to; the top of the stack is the last element. */
  type Stack = seq<(Frame, Hir)>

  /** What is left to do once the current child is over: its siblings, its parent, then the outer frames. */
  ghost function Unwind<S>(v: Visitor<S>, stack: Stack, s: S): S
    decreases |stack|
  {
    if stack == [] then s
    else
      var (frame, parent) := stack[|stack| - 1];
      Unwind(v, stack[..|stack| - 1], v.post(WalkMore(v, frame.rest, frame.isAlternation, s), parent))
  }

  ghost function SizeStack(stack: Stack): nat
    decreases |stack|
  {
    if stack == [] then 0
    else 1 + SizeAll(stack[|stack| - 1].0.rest) + SizeStack(stack[..|stack| - 1])
  }

  lemma Push<S>(v: Visitor<S>, stack: Stack, frame: Frame, parent: Hir, s: S)
    ensures Unwind(v, stack + [(frame, parent)], s)
         == Unwind(v, stack, v.post(WalkMore(v, frame.rest, frame.isAlternation, s), parent))
    ensures SizeStack(stack + [(frame, parent)]) == 1 + SizeAll(frame.rest) + SizeStack(stack)
  {
    var pushed := stack + [(frame, parent)];
    assert pushed[|pushed| - 1] == (frame, parent) && pushed[..|pushed| - 1] == stack;
  }

  /** Entering the first child of a node. */
  lemma Enter<S>(v: Visitor<S>, stack: Stack, h: Hir, frame: Frame, s: S)
    requires BuildStackFrame(h) == Some(frame)
    ensures Unwind(v, stack + [(frame, h)], Walk(v, frame.hir, s))
         == Unwind(v, stack, v.post(WalkAll(v, Children(h), h.Alternation?, s), h))
    ensures Size(frame.hir) + SizeStack(stack + [(frame, h)]) == Size(h) + SizeStack(stack)
  {
    SizeChildren(h);
    assert Children(h)[0] == frame.hir && Children(h)[1..] == frame.rest;
    Push(v, stack, frame, h, Walk(v, frame.hir, s));
  }

  /** The loop makes exactly the calls of the structural recursion, in its order. */
  method Visit<S>(root: Hir, v: Visitor<S>, init: S) returns (s: S)
    ensures s == Walk(v, root, init)
  {
    s := init;
    var h := root;
    var stack: Stack := [];
    ghost var goal := Walk(v, root, init);
    // Entering a node keeps the total size but deepens the stack, which the total bounds.
    while true
      invariant Unwind(v, stack, Walk(v, h, s)) == goal
      decreases Size(h) + SizeStack(stack), Size(h)
    {
      ghost var total := Size(h) + SizeStack(stack);
      var (s1, action) := v.pre(s, h);
      s := s1;
      if action.Continue? {
        var frame := BuildStackFrame(h);
        if frame.Some? {
          Enter(v, stack, h, frame.value, s);
          SizeChildren(h);
          stack := stack + [(frame.value, h)];
          h := frame.value.hir;
          continue;
        }
      }
      s := v.post(s, h);
      while true
        invariant Unwind(v, stack, s) == goal
        invariant SizeStack(stack) < total
        decreases |stack|
      {
        if stack == [] {
          return;
        }
        var (frame, parent) := stack[|stack| - 1];
        stack := stack[..|stack| - 1];
        var next := Next(frame);
        if next.None? {
          s := v.post(s, parent);
        } else {
          assert frame.rest[0] == next.value.hir && frame.rest[1..] == next.value.rest;
          if next.value.isAlternation {
            s := v.alternationIn(s);
          }
          Push(v, stack, next.value, parent, Walk(v, next.value.hir, s));
          stack := stack + [(next.value, parent)];
          h := next.value.hir;
          break;
        }
      }
    }
  }
}
