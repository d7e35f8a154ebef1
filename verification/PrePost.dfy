/** The split of a HIR around its literals (`PrePostExtractor` and `get_literals_details` in `matcher/literals.rs`). */
module PrePost {
  import opened Base
  import opened Hir
  import opened Visitor

  // ----- The visitor -----

  /** Where the literals stand among the leaves, and how many leaves there are. */
  datatype Cut = Cut(start: nat, end: nat, last: nat)

  /** One of the two nodes being rebuilt: the levels of the compounds entered, and the finished top-level node. */
  datatype Side = Side(stack: seq<seq<Hir>>, node: Option<Hir>)

  datatype State = State(pre: Side, post: Side, position: nat)

  function AddNode(s: Side, h: Hir): Run<Side> {
    if s.stack == [] then
      if s.node.Some? then Panicked else Running(s.(node := Some(h)))
    else
      var top := |s.stack| - 1;
      Running(s.(stack := s.stack[top := s.stack[top] + [h]]))
  }

  function AddOption(s: Side, h: Option<Hir>): Run<Side> {
    if h.Some? then AddNode(s, h.value) else Running(s)
  }

  function Join(pre: Run<Side>, post: Run<Side>, position: nat): Run<State> {
    if pre.Running? && post.Running? then Running(State(pre.state, post.state, position)) else Panicked
  }

  /** Does the leaf at this position belong to the node before (`post` is false) or after the literals? Both include
      the literals; a side that would only hold the literals is not kept at all. */
  predicate Keeps(c: Cut, post: bool, position: nat) {
    if post then position >= c.start && c.end != c.last else position < c.end && c.start > 0
  }

  function Kept(c: Cut, post: bool, position: nat, h: Hir): Option<Hir> {
    if Keeps(c, post, position) then Some(h) else None
  }

  function PushLevel(s: Side): Side {
    s.(stack := s.stack + [[]])
  }

  function Pre(c: Cut, s: State, h: Hir): (Run<State>, Action) {
    if IsLeaf(h) then
      (Join(AddOption(s.pre, Kept(c, false, s.position, h)), AddOption(s.post, Kept(c, true, s.position, h)), s.position),
       Skip)
    else (Running(s.(pre := PushLevel(s.pre), post := PushLevel(s.post))), Continue)
  }

  /** The compound rebuilt from the nodes of its level, if any. */
  function Rebuild(h: Hir, level: seq<Hir>): Option<Hir> {
    if level == [] then None
    else if h.Group? then Some(Group(level[|level| - 1]))
    else Some(Concat(level))
  }

  function PopInto(s: Side, h: Hir): Run<Side> {
    if s.stack == [] then Panicked
    else AddOption(s.(stack := s.stack[..|s.stack| - 1]), Rebuild(h, s.stack[|s.stack| - 1]))
  }

  function Post(s: State, h: Hir): Run<State> {
    if IsLeaf(h) then Running(s.(position := s.position + 1))
    else Join(PopInto(s.pre, h), PopInto(s.post, h), s.position)
  }

  function PrePostVisitor(c: Cut): Visitor<Run<State>> {
    Visitor(
      (r: Run<State>, h: Hir) => if r.Panicked? then (r, Skip) else Pre(c, r.state, h),
      (r: Run<State>) => r,
      (r: Run<State>, h: Hir) => if r.Panicked? then r else Post(r.state, h))
  }

  // ----- The same visitor, updating its fields in place -----

  class PrePostExtractor {
    var preStack: seq<seq<Hir>>
    var postStack: seq<seq<Hir>>
    var preNode: Option<Hir>
    var postNode: Option<Hir>
    const cut: Cut
    var currentPosition: nat

    ghost function View(): State
      reads this
    {
      State(Side(preStack, preNode), Side(postStack, postNode), currentPosition)
    }

    constructor (cut: Cut)
      ensures this.cut == cut && View() == State(Side([], None), Side([], None), 0)
    {
      this.cut := cut;
      preStack, postStack, preNode, postNode, currentPosition := [], [], None, None, 0;
    }

    method PushStack()
      modifies this`preStack, this`postStack
      ensures View() == State(PushLevel(old(View()).pre), PushLevel(old(View()).post), currentPosition)
    {
      preStack := preStack + [[]];
      postStack := postStack + [[]];
    }

    /** The assertion of the source, that the top-level node is not set yet, is the precondition. */
    method AddNodeTo(h: Hir, post: bool)
      requires AddNode(if post then View().post else View().pre, h).Running?
      modifies this
      ensures post ==> Running(View().post) == AddNode(old(View()).post, h) && View().pre == old(View()).pre
      ensures !post ==> Running(View().pre) == AddNode(old(View()).pre, h) && View().post == old(View()).post
      ensures currentPosition == old(currentPosition)
    {
      if post {
        if postStack == [] {
          postNode := Some(h);
        } else {
          var pos := |postStack| - 1;
          postStack := postStack[pos := postStack[pos] + [h]];
        }
      } else {
        if preStack == [] {
          preNode := Some(h);
        } else {
          var pos := |preStack| - 1;
          preStack := preStack[pos := preStack[pos] + [h]];
        }
      }
    }

    method VisitPre(h: Hir) returns (action: Action)
      requires Pre(cut, View(), h).0.Running?
      modifies this
      ensures (Running(View()), action) == Pre(cut, old(View()), h)
    {
      if h.Group? || h.Concat? {
        PushStack();
        return Continue;
      }
      if currentPosition < cut.end && cut.start > 0 {
        AddNodeTo(h, false);
      }
      if currentPosition >= cut.start && cut.end != cut.last {
        AddNodeTo(h, true);
      }
      return Skip;
    }

    method VisitPost(h: Hir)
      requires Post(View(), h).Running?
      modifies this
      ensures Running(View()) == Post(old(View()), h)
    {
      match h {
        case Group(_) =>
          var pre, post := preStack[|preStack| - 1], postStack[|postStack| - 1];
          preStack, postStack := preStack[..|preStack| - 1], postStack[..|postStack| - 1];
          if pre != [] {
            AddNodeTo(Group(pre[|pre| - 1]), false);
          }
          if post != [] {
            AddNodeTo(Group(post[|post| - 1]), true);
          }
        case Concat(_) =>
          var pre, post := preStack[|preStack| - 1], postStack[|postStack| - 1];
          preStack, postStack := preStack[..|preStack| - 1], postStack[..|postStack| - 1];
          if pre != [] {
            AddNodeTo(Concat(pre), false);
          }
          if post != [] {
            AddNodeTo(Concat(post), true);
          }
        case _ => currentPosition := currentPosition + 1;
      }
    }
  }

  // ----- The node before or after the literals, by recursion on the HIR -----

  /** The part of `h` whose leaves are kept, when its first leaf has position `position`. */
  function Restrict(c: Cut, post: bool, h: Hir, position: nat): Option<Hir>
    decreases h, 1
  {
    match h
    case Group(g) =>
      var r := Restrict(c, post, g, position);
      if r.Some? then Some(Group(r.value)) else None
    case Concat(hs) =>
      var r := RestrictAll(c, post, hs, position);
      if r != [] then Some(Concat(r)) else None
    case _ => Kept(c, post, position, h)
  }

  function RestrictAll(c: Cut, post: bool, hs: seq<Hir>, position: nat): seq<Hir>
    decreases hs, 0
  {
    if hs == [] then []
    else ToSeq(Restrict(c, post, hs[0], position)) + RestrictAll(c, post, hs[1..], position + |Leaves(hs[0])|)
  }

  function ToSeq(h: Option<Hir>): seq<Hir> {
    if h.Some? then [h.value] else []
  }

  lemma PushPop(stack: seq<seq<Hir>>, level: seq<Hir>)
    ensures (stack + [level])[..|stack + [level]| - 1] == stack
    ensures (stack + [level])[|stack + [level]| - 1] == level
  {
  }

  lemma AddInLevel(stack: seq<seq<Hir>>, level: seq<Hir>, node: Option<Hir>, h: Option<Hir>)
    ensures AddOption(Side(stack + [level], node), h) == Running(Side(stack + [level + ToSeq(h)], node))
  {
    var all := stack + [level];
    if h.Some? {
      assert all[|all| - 1 := level + [h.value]] == stack + [level + [h.value]];
    } else {
      assert level + [] == level;
    }
  }

  /** The state `s` with one more level on each side. */
  function Entered(s: State, pre: seq<Hir>, post: seq<Hir>, position: nat): State {
    State(s.pre.(stack := s.pre.stack + [pre]), s.post.(stack := s.post.stack + [post]), position)
  }

  lemma JoinInLevel(s: State, pre: seq<Hir>, post: seq<Hir>, x: Option<Hir>, y: Option<Hir>, p: nat, position: nat)
    ensures Join(AddOption(Entered(s, pre, post, p).pre, x), AddOption(Entered(s, pre, post, p).post, y), position)
         == Running(Entered(s, pre + ToSeq(x), post + ToSeq(y), position))
  {
    AddInLevel(s.pre.stack, pre, s.pre.node, x);
    AddInLevel(s.post.stack, post, s.post.node, y);
  }

  /** Leaving a compound: its levels are popped, and the nodes rebuilt from them are added below. */
  lemma LeaveCompound(h: Hir, s: State, pre: seq<Hir>, post: seq<Hir>, position: nat)
    requires !IsLeaf(h)
    ensures Post(Entered(s, pre, post, position), h)
         == Join(AddOption(s.pre, Rebuild(h, pre)), AddOption(s.post, Rebuild(h, post)), position)
  {
    PushPop(s.pre.stack, pre);
    PushPop(s.post.stack, post);
  }

  /** What walking a node must lead to: each side gets what `Restrict` keeps of it. */
  function Restricted(c: Cut, h: Hir, s: State): Run<State> {
    Join(AddOption(s.pre, Restrict(c, false, h, s.position)), AddOption(s.post, Restrict(c, true, h, s.position)),
         s.position + |Leaves(h)|)
  }

  lemma {:induction false} WalkRestricts(c: Cut, h: Hir, s: State)
    ensures Walk(PrePostVisitor(c), h, Running(s)) == Restricted(c, h, s)
    decreases h, 1
  {
    match h
    case Group(g) => WalkGroupRestricts(c, g, s);
    case Concat(hs) => WalkConcatRestricts(c, hs, s);
    case _ =>
  }

  lemma {:induction false} WalkGroupRestricts(c: Cut, g: Hir, s: State)
    ensures Walk(PrePostVisitor(c), Group(g), Running(s)) == Restricted(c, Group(g), s)
    decreases g, 4
  {
    WalkChildRestricts(c, g, s);
    var pre, post := Restrict(c, false, g, s.position), Restrict(c, true, g, s.position);
    RebuildGroup(c, false, g, s.position);
    RebuildGroup(c, true, g, s.position);
    CompoundRestricts(c, Group(g), [g], s, ToSeq(pre), ToSeq(post), s.position + |Leaves(g)|);
  }

  lemma RebuildGroup(c: Cut, post: bool, g: Hir, position: nat)
    ensures Rebuild(Group(g), ToSeq(Restrict(c, post, g, position))) == Restrict(c, post, Group(g), position)
  {
  }

  lemma {:induction false} WalkChildRestricts(c: Cut, g: Hir, s: State)
    ensures WalkAll(PrePostVisitor(c), [g], false, Running(Entered(s, [], [], s.position)))
         == Running(Entered(s, ToSeq(Restrict(c, false, g, s.position)), ToSeq(Restrict(c, true, g, s.position)),
                            s.position + |Leaves(g)|))
    decreases g, 3
  {
    var pre, post := Restrict(c, false, g, s.position), Restrict(c, true, g, s.position);
    WalkOne(PrePostVisitor(c), g, false, Running(Entered(s, [], [], s.position)));
    WalkFirstRestricts(c, g, s, [], []);
    assert [] + ToSeq(pre) == ToSeq(pre) && [] + ToSeq(post) == ToSeq(post);
  }

  lemma {:induction false} WalkConcatRestricts(c: Cut, hs: seq<Hir>, s: State)
    ensures Walk(PrePostVisitor(c), Concat(hs), Running(s)) == Restricted(c, Concat(hs), s)
    decreases hs, 1
  {
    var pre, post := RestrictAll(c, false, hs, s.position), RestrictAll(c, true, hs, s.position);
    var v, s1 := PrePostVisitor(c), Entered(s, [], [], s.position);
    WalkMoreRestricts(c, hs, s, [], []);
    WalkAllIsMore(v, hs, Running(s1));
    assert [] + pre == pre && [] + post == post;
    CompoundRestricts(c, Concat(hs), hs, s, pre, post, s.position + |LeavesSeq(hs)|);
  }

  /** From the levels that the children of a compound leave to what the compound adds to each side. */
  lemma CompoundRestricts(c: Cut, h: Hir, hs: seq<Hir>, s: State, pre: seq<Hir>, post: seq<Hir>, position: nat)
    requires !IsLeaf(h) && hs == Children(h)
    requires WalkAll(PrePostVisitor(c), hs, false, Running(Entered(s, [], [], s.position)))
          == Running(Entered(s, pre, post, position))
    requires Rebuild(h, pre) == Restrict(c, false, h, s.position) && Rebuild(h, post) == Restrict(c, true, h, s.position)
    requires position == s.position + |Leaves(h)|
    ensures Walk(PrePostVisitor(c), h, Running(s)) == Restricted(c, h, s)
  {
    var v := PrePostVisitor(c);
    var s1 := Running(Entered(s, [], [], s.position));
    assert v.pre(Running(s), h) == (s1, Continue);
    WalkCompound(v, h, Running(s), s1, Running(Entered(s, pre, post, position)));
    LeaveCompound(h, s, pre, post, position);
  }

  /** The state after the siblings `hs`, from the levels `pre` and `post`. */
  function RestrictedAll(c: Cut, hs: seq<Hir>, s: State, pre: seq<Hir>, post: seq<Hir>): State {
    Entered(s, pre + RestrictAll(c, false, hs, s.position), post + RestrictAll(c, true, hs, s.position),
            s.position + |LeavesSeq(hs)|)
  }

  lemma {:induction false} WalkMoreRestricts(c: Cut, hs: seq<Hir>, s: State, pre: seq<Hir>, post: seq<Hir>)
    ensures WalkMore(PrePostVisitor(c), hs, false, Running(Entered(s, pre, post, s.position)))
         == Running(RestrictedAll(c, hs, s, pre, post))
    decreases hs, 0
  {
    if hs == [] {
      assert pre + [] == pre && post + [] == post;
    } else {
      WalkFirstRestricts(c, hs[0], s, pre, post);
      var x, y := Restrict(c, false, hs[0], s.position), Restrict(c, true, hs[0], s.position);
      var next := s.(position := s.position + |Leaves(hs[0])|);
      WalkMoreStep(PrePostVisitor(c), hs, Running(Entered(s, pre, post, s.position)),
                   Running(Entered(next, pre + ToSeq(x), post + ToSeq(y), next.position)));
      WalkMoreRestricts(c, hs[1..], next, pre + ToSeq(x), post + ToSeq(y));
      RestrictedCons(c, hs, s, pre, post);
    }
  }

  lemma {:induction false} WalkFirstRestricts(c: Cut, h: Hir, s: State, pre: seq<Hir>, post: seq<Hir>)
    ensures Walk(PrePostVisitor(c), h, Running(Entered(s, pre, post, s.position)))
         == Running(Entered(s, pre + ToSeq(Restrict(c, false, h, s.position)), post + ToSeq(Restrict(c, true, h, s.position)),
                            s.position + |Leaves(h)|))
    decreases h, 2
  {
    WalkRestricts(c, h, Entered(s, pre, post, s.position));
    JoinInLevel(s, pre, post, Restrict(c, false, h, s.position), Restrict(c, true, h, s.position), s.position,
                s.position + |Leaves(h)|);
  }

  lemma RestrictedCons(c: Cut, hs: seq<Hir>, s: State, pre: seq<Hir>, post: seq<Hir>)
    requires hs != []
    ensures var x, y := Restrict(c, false, hs[0], s.position), Restrict(c, true, hs[0], s.position);
      var next := s.(position := s.position + |Leaves(hs[0])|);
      RestrictedAll(c, hs[1..], next, pre + ToSeq(x), post + ToSeq(y)) == RestrictedAll(c, hs, s, pre, post)
  {
    var x, y := ToSeq(Restrict(c, false, hs[0], s.position)), ToSeq(Restrict(c, true, hs[0], s.position));
    var n := s.position + |Leaves(hs[0])|;
    AppendThree(pre, x, RestrictAll(c, false, hs[1..], n));
    AppendThree(post, y, RestrictAll(c, true, hs[1..], n));
  }

  lemma AppendThree(xs: seq<Hir>, ys: seq<Hir>, zs: seq<Hir>)
    ensures (xs + ys) + zs == xs + (ys + zs)
  {
  }

  // ----- The leaves kept -----

  function KeptLeaves(c: Cut, post: bool, ls: seq<Hir>, position: nat): seq<Hir> {
    if ls == [] then []
    else (if Keeps(c, post, position) then [ls[0]] else []) + KeptLeaves(c, post, ls[1..], position + 1)
  }

  lemma {:induction false} KeptLeavesAppend(c: Cut, post: bool, xs: seq<Hir>, ys: seq<Hir>, position: nat)
    ensures KeptLeaves(c, post, xs + ys, position)
         == KeptLeaves(c, post, xs, position) + KeptLeaves(c, post, ys, position + |xs|)
    decreases |xs|
  {
    if xs == [] {
      assert xs + ys == ys;
    } else {
      assert (xs + ys)[0] == xs[0] && (xs + ys)[1..] == xs[1..] + ys;
      KeptLeavesAppend(c, post, xs[1..], ys, position + 1);
    }
  }

  function LeavesOf(h: Option<Hir>): seq<Hir> {
    if h.Some? then Leaves(h.value) else []
  }

  /** The leaves of the rebuilt node are the leaves kept; there is a node exactly when some leaf is kept. */
  lemma {:induction false} RestrictLeaves(c: Cut, post: bool, h: Hir, position: nat)
    ensures LeavesOf(Restrict(c, post, h, position)) == KeptLeaves(c, post, Leaves(h), position)
    ensures Restrict(c, post, h, position).None? <==> KeptLeaves(c, post, Leaves(h), position) == []
    decreases h, 1
  {
    match h
    case Group(g) => RestrictLeaves(c, post, g, position);
    case Concat(hs) => RestrictAllLeaves(c, post, hs, position);
    case _ => assert [h][1..] == [];
  }

  lemma {:induction false} RestrictAllLeaves(c: Cut, post: bool, hs: seq<Hir>, position: nat)
    ensures LeavesSeq(RestrictAll(c, post, hs, position)) == KeptLeaves(c, post, LeavesSeq(hs), position)
    ensures RestrictAll(c, post, hs, position) == [] <==> KeptLeaves(c, post, LeavesSeq(hs), position) == []
    decreases hs, 0
  {
    if hs != [] {
      var first, n := Restrict(c, post, hs[0], position), position + |Leaves(hs[0])|;
      RestrictLeaves(c, post, hs[0], position);
      RestrictAllLeaves(c, post, hs[1..], n);
      KeptLeavesAppend(c, post, Leaves(hs[0]), LeavesSeq(hs[1..]), position);
      LeavesSeqAppend(ToSeq(first), RestrictAll(c, post, hs[1..], n));
      if first.Some? { assert [first.value][1..] == []; }
    }
  }

  /** Before the literals: the leaves up to their end. */
  lemma {:induction false} KeptBefore(c: Cut, ls: seq<Hir>, position: nat)
    requires position + |ls| >= c.end
    ensures KeptLeaves(c, false, ls, position)
         == if c.start > 0 && position < c.end then ls[..c.end - position] else []
    decreases |ls|
  {
    if ls != [] {
      if position < c.end {
        KeptBefore(c, ls[1..], position + 1);
        if c.start > 0 { assert ls[..c.end - position] == [ls[0]] + ls[1..][..c.end - position - 1]; }
      } else {
        KeptNone(c, false, ls, position);
      }
    }
  }

  lemma {:induction false} KeptNone(c: Cut, post: bool, ls: seq<Hir>, position: nat)
    requires forall p :: position <= p ==> !Keeps(c, post, p)
    ensures KeptLeaves(c, post, ls, position) == []
    decreases |ls|
  {
    if ls != [] { KeptNone(c, post, ls[1..], position + 1); }
  }

  /** After the literals: the leaves from their start. */
  lemma {:induction false} KeptAfter(c: Cut, ls: seq<Hir>, position: nat)
    ensures KeptLeaves(c, true, ls, position)
         == if c.end == c.last then [] else if position >= c.start then ls
            else if c.start - position <= |ls| then ls[c.start - position..] else []
    decreases |ls|
  {
    if ls != [] {
      KeptAfter(c, ls[1..], position + 1);
      if position < c.start && c.start - position <= |ls| {
        assert ls[c.start - position..] == ls[1..][c.start - position - 1..];
      }
    }
  }
}
