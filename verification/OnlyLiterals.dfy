/** The expansion of a HIR into a finite list of literals (`matcher/only_literals.rs`). */
module OnlyLiterals {
  import opened Base
  import opened Hir
  import opened Visitor
  import opened Bitmaps
  import Analysis
  import opened Words

  // ----- The visitor -----

  /** The literals so far, and the bytes to append to each of them. No literal at all stands for the empty one. */
  datatype Lits = Lits(all: Option<seq<bytes>>, buffer: bytes)

  datatype AltLiterals = AltLiterals(prevLits: Option<seq<bytes>>, branchLits: seq<bytes>)

  datatype State = State(lits: Lits, altStack: seq<AltLiterals>)

  const FRESH := Lits(Some([]), [])

  function CommitBuffer(l: Lits): Lits {
    Lits(if l.all.None? then None
         else if l.all.value == [] then Some([l.buffer])
         else Some(Suffixed(l.all.value, l.buffer)),
         [])
  }

  function CartesianProduct(l: Lits, suffixes: seq<bytes>): Lits {
    if l.all.None? then l else l.(all := Some(Product(l.all.value, suffixes)))
  }

  /** The additions `(i << 4) + b` and `b + 0xF` on a `u8` panic when they overflow. */
  predicate MaskOverflows(value: byte, mask: byte) {
    if mask == 0x0F then value >= 16 else value >= 256 - 15
  }

  function MaskSuffixes(value: byte, mask: byte): seq<bytes>
    requires !MaskOverflows(value, mask)
  {
    if mask == 0x0F then Singles(seq(16, i requires 0 <= i < 16 => 16 * i + value))
    else Singles(seq(16, i requires 0 <= i < 16 => value + i))
  }

  function Pre(s: State, h: Hir): Run<(State, Action)> {
    if s.lits.all.None? then Running((s, Skip))
    else
      match h
      case Mask(value, mask, negated) =>
        if negated then Running((s.(lits := s.lits.(all := None)), Skip))
        else if MaskOverflows(value, mask) then Panicked
        else Running((s.(lits := CartesianProduct(CommitBuffer(s.lits), MaskSuffixes(value, mask))), Continue))
      case Dot => Running((s.(lits := s.lits.(all := None)), Skip))
      case Literal(b) => Running((s.(lits := s.lits.(buffer := s.lits.buffer + [b])), Continue))
      case Alternation(_) =>
        Running((State(FRESH, s.altStack + [AltLiterals(CommitBuffer(s.lits).all, [])]), Continue))
      case Class(bitmap) =>
        Running((s.(lits := CartesianProduct(CommitBuffer(s.lits), Singles(Members(bitmap)))), Continue))
      case Assertion(_) => Running((s.(lits := s.lits.(all := None)), Skip))
      case Repetition(_, _, _) => Running((s.(lits := s.lits.(all := None)), Skip))
      case _ => Running((s, Continue))
  }

  /** The literals of one more branch, or the failure of the whole alternation. */
  function CloseBranch(v: AltLiterals, l: Lits): AltLiterals {
    var branch := CommitBuffer(l).all;
    if branch.Some? then v.(branchLits := v.branchLits + branch.value) else v.(prevLits := None)
  }

  function AlternationIn(s: State): Run<State> {
    if s.altStack == [] then Panicked
    else
      var last := |s.altStack| - 1;
      Running(State(FRESH, s.altStack[last := CloseBranch(s.altStack[last], s.lits)]))
  }

  function Post(s: State, h: Hir): Run<State> {
    if !h.Alternation? then Running(s)
    else
      var r := AlternationIn(s);
      if r.Panicked? then Panicked
      else
        var last := |r.state.altStack| - 1;
        var v := r.state.altStack[last];
        Running(State(CartesianProduct(Lits(v.prevLits, r.state.lits.buffer), v.branchLits), r.state.altStack[..last]))
  }

  function ExtractorVisitor(): Visitor<Run<State>> {
    Visitor(
      (r: Run<State>, h: Hir) =>
        if r.Panicked? then (r, Skip)
        else match Pre(r.state, h) case Panicked => (Panicked, Skip) case Running((s, action)) => (Running(s), action),
      (r: Run<State>) => if r.Panicked? then r else AlternationIn(r.state),
      (r: Run<State>, h: Hir) => if r.Panicked? then r else Post(r.state, h))
  }

  // ----- The same visitor, updating its fields in place -----

  /** `flat_map` over the prefixes, then over the suffixes. */
  method FlatMap(prefixes: seq<bytes>, suffixes: seq<bytes>) returns (res: seq<bytes>)
    ensures res == Product(prefixes, suffixes)
  {
    res := [];
    for k := 0 to |prefixes|
      invariant res == Product(prefixes[..k], suffixes)
    {
      var row := MapPrefix(prefixes[k], suffixes);
      assert prefixes[..k + 1] == prefixes[..k] + [prefixes[k]];
      ProductAppend(prefixes[..k], [prefixes[k]], suffixes);
      ProductOfOne(prefixes[k], suffixes);
      res := res + row;
    }
    assert prefixes[..|prefixes|] == prefixes;
  }

  method MapPrefix(prefix: bytes, suffixes: seq<bytes>) returns (row: seq<bytes>)
    ensures row == Prefixed(prefix, suffixes)
  {
    row := [];
    for n := 0 to |suffixes|
      invariant |row| == n && forall m :: 0 <= m < n ==> row[m] == prefix + suffixes[m]
    {
      row := row + [prefix + suffixes[n]];
    }
  }

  lemma ProductOfOne(x: bytes, ys: seq<bytes>)
    ensures Product([x], ys) == Prefixed(x, ys)
  {
    assert [x][1..] == [];
  }

  class Extractor {
    var all: Option<seq<bytes>>
    var buffer: bytes
    var altStack: seq<AltLiterals>

    ghost function View(): State
      reads this
    {
      State(Lits(all, buffer), altStack)
    }

    constructor ()
      ensures View() == State(FRESH, [])
    {
      all, buffer, altStack := Some([]), [], [];
    }

    method AddMaskedByte(b: byte, mask: byte)
      requires !MaskOverflows(b, mask)
      modifies this
      ensures View() == State(CartesianProduct(CommitBuffer(old(View().lits)), MaskSuffixes(b, mask)), old(altStack))
    {
      CommitInPlace();
      var suffixes: seq<bytes> := [];
      for i := 0 to 16
        invariant suffixes == MaskSuffixes(b, mask)[..i]
      {
        suffixes := suffixes + [if mask == 0x0F then [16 * i + b] else [b + i]];
      }
      assert MaskSuffixes(b, mask)[..16] == MaskSuffixes(b, mask);
      ProductInPlace(suffixes);
    }

    method AddClass(bitmap: set<byte>)
      modifies this
      ensures View() == State(CartesianProduct(CommitBuffer(old(View().lits)), Singles(Members(bitmap))), old(altStack))
    {
      CommitInPlace();
      if all.Some? {
        var res := FlatMap(all.value, Singles(Members(bitmap)));
        all := Some(res);
      }
    }

    /** `cartesian_product` */
    method ProductInPlace(suffixes: seq<bytes>)
      modifies this`all
      ensures View() == State(CartesianProduct(old(View().lits), suffixes), old(altStack))
    {
      if all.Some? {
        var res := FlatMap(all.value, suffixes);
        all := Some(res);
      }
    }

    /** `commit_buffer` */
    method CommitInPlace()
      modifies this`all, this`buffer
      ensures View() == State(CommitBuffer(old(View().lits)), old(altStack))
    {
      var b := buffer;
      buffer := [];
      if all.Some? {
        var ws := all.value;
        if ws == [] {
          all := Some([b]);
        } else {
          for k := 0 to |ws|
            invariant |ws| == |old(all).value|
            invariant ws == Suffixed(old(all).value, b)[..k] + old(all).value[k..]
          {
            ws := ws[k := ws[k] + b];
          }
          assert ws == Suffixed(old(all).value, b);
          all := Some(ws);
        }
      }
    }

    method VisitPre(h: Hir) returns (action: Action)
      requires Pre(View(), h).Running?
      modifies this
      ensures Running((View(), action)) == Pre(old(View()), h)
    {
      if all.None? {
        return Skip;
      }
      match h {
        case Mask(value, mask, negated) =>
          if negated {
            all := None;
            return Skip;
          }
          AddMaskedByte(value, mask);
        case Dot =>
          all := None;
          return Skip;
        case Literal(b) => buffer := buffer + [b];
        case Alternation(_) =>
          CommitInPlace();
          altStack := altStack + [AltLiterals(all, [])];
          all := Some([]);
        case Class(bitmap) => AddClass(bitmap);
        case Assertion(_) =>
          all := None;
          return Skip;
        case Repetition(_, _, _) =>
          all := None;
          return Skip;
        case _ =>
      }
      return Continue;
    }

    method VisitAlternationIn()
      requires altStack != []
      modifies this
      ensures Running(View()) == AlternationIn(old(View()))
    {
      CommitInPlace();
      var lastPos := |altStack| - 1;
      var v := altStack[lastPos];
      altStack := altStack[lastPos := match all {
                                      case Some(al) => v.(branchLits := v.branchLits + al)
                                      case None => v.(prevLits := None)
                                    }];
      all := Some([]);
    }

    method VisitPost(h: Hir)
      requires h.Alternation? ==> altStack != []
      modifies this
      ensures Running(View()) == Post(old(View()), h)
    {
      if h.Alternation? {
        VisitAlternationIn();
        var stack := altStack[|altStack| - 1];
        altStack := altStack[..|altStack| - 1];
        all := stack.prevLits;
        ProductInPlace(stack.branchLits);
      }
    }

    method Finish() returns (r: Option<seq<bytes>>)
      modifies this
      ensures r == CommitBuffer(old(View().lits)).all
    {
      CommitInPlace();
      r := all;
    }
  }

  // ----- The literals after a node, by recursion on the node -----

  function After(h: Hir, l: Lits): Lits
    requires WellFormed(h)
    decreases h, 1
  {
    if l.all.None? then l
    else
      match h
      case Mask(value, mask, negated) =>
        if negated then l.(all := None) else CartesianProduct(CommitBuffer(l), Singles(MaskBytes(value, mask)))
      case Literal(b) => l.(buffer := l.buffer + [b])
      case Class(bitmap) => CartesianProduct(CommitBuffer(l), Singles(Members(bitmap)))
      case Group(g) => After(g, l)
      case Concat(hs) => AfterAll(hs, l)
      case Alternation(hs) => CloseAlternation(AfterBranches(hs, AltLiterals(CommitBuffer(l).all, [])))
      case Empty => l
      case _ => l.(all := None)
  }

  function AfterAll(hs: seq<Hir>, l: Lits): Lits
    requires AllWellFormed(hs)
    decreases hs, 0
  {
    if hs == [] then l else AfterAll(hs[1..], After(hs[0], l))
  }

  function AfterBranches(hs: seq<Hir>, v: AltLiterals): AltLiterals
    requires AllWellFormed(hs)
    decreases hs, 0
  {
    if hs == [] then v else AfterBranches(hs[1..], CloseBranch(v, After(hs[0], FRESH)))
  }

  function CloseAlternation(v: AltLiterals): Lits {
    CartesianProduct(Lits(v.prevLits, []), v.branchLits)
  }

  ghost predicate NoAlternation(hs: seq<Hir>) {
    forall k :: 0 <= k < |hs| ==> !hs[k].Alternation?
  }

  /** No panic on a well-formed HIR, and the stack of alternations is back to what it was after each node. An
      alternation must not be entered once the extraction failed: `visit` would still leave it, and pop the stack. */
  lemma {:induction false} WalkIsAfter(h: Hir, s: State)
    requires WellFormed(h) && (s.lits.all.Some? || !h.Alternation?)
    ensures Walk(ExtractorVisitor(), h, Running(s)) == Running(State(After(h, s.lits), s.altStack))
    decreases h, 1
  {
    if s.lits.all.Some? {
      match h
      case Group(g) =>
        WalkOne(ExtractorVisitor(), g, false, Running(s));
        WalkIsAfter(g, s);
      case Concat(hs) => WalkAllIsAfter(hs, s);
      case Alternation(hs) =>
        var v := AltLiterals(CommitBuffer(s.lits).all, []);
        WalkIsAfter(hs[0], State(FRESH, s.altStack + [v]));
        WalkBranchesIsAfter(hs[1..], h, After(hs[0], FRESH), v, s.altStack);
      case _ =>
    }
  }

  lemma {:induction false} WalkAllIsAfter(hs: seq<Hir>, s: State)
    requires AllWellFormed(hs) && NoAlternation(hs)
    ensures WalkMore(ExtractorVisitor(), hs, false, Running(s)) == Running(State(AfterAll(hs, s.lits), s.altStack))
    ensures WalkAll(ExtractorVisitor(), hs, false, Running(s)) == Running(State(AfterAll(hs, s.lits), s.altStack))
    decreases hs, 0
  {
    if hs != [] {
      WalkIsAfter(hs[0], s);
      WalkAllIsAfter(hs[1..], State(After(hs[0], s.lits), s.altStack));
    }
  }

  lemma {:induction false} WalkBranchesIsAfter(hs: seq<Hir>, h: Hir, l: Lits, v: AltLiterals, stack: seq<AltLiterals>)
    requires AllWellFormed(hs) && h.Alternation?
    ensures ExtractorVisitor().post(WalkMore(ExtractorVisitor(), hs, true, Running(State(l, stack + [v]))), h)
         == Running(State(CloseAlternation(AfterBranches(hs, CloseBranch(v, l))), stack))
    decreases hs, 0
  {
    var s := State(l, stack + [v]);
    var s1 := AlternationIn(s).state;
    assert s1.altStack == stack + [CloseBranch(v, l)];
    if hs == [] {
      assert s1.altStack[..|s1.altStack| - 1] == stack;
    } else {
      WalkIsAfter(hs[0], s1);
      WalkBranchesIsAfter(hs[1..], h, After(hs[0], FRESH), CloseBranch(v, l), stack);
    }
  }

  /** Why a concatenation must not hold an alternation directly: after a failure, its end finds an empty stack. */
  lemma AlternationInConcatPanics()
    ensures var h := Concat([Dot, Alternation([Literal(0)])]);
      !WellFormed(h) && Walk(ExtractorVisitor(), h, Running(State(FRESH, []))) == Panicked
  {
    var v := ExtractorVisitor();
    var a := Alternation([Literal(0)]);
    var hs := [Dot, a];
    assert Concat(hs).hirs[1].Alternation?;
    assert hs[1..] == [a] && [a][1..] == [];
    var failed := Running(State(FRESH.(all := None), []));
    assert Walk(v, Dot, Running(State(FRESH, []))) == failed;
    assert Walk(v, a, failed) == Panicked;
  }

  // ----- What the extraction computes -----

  /** Does the visit of `h` lose the literals that came before it? An empty class leaves no literal at all, which the
      next commit takes for the empty literal; an alternation keeps what came before in its stack. */
  predicate Restarts(h: Hir)
    decreases h, 1
  {
    match h
    case Class(bitmap) => bitmap == {}
    case Group(g) => Restarts(g)
    case Concat(hs) => RestartsAny(hs)
    case _ => false
  }

  predicate RestartsAny(hs: seq<Hir>)
    decreases hs, 0
  {
    hs != [] && (Restarts(hs[0]) || RestartsAny(hs[1..]))
  }

  /** The literals that the visit of `h` adds. */
  function Kept(h: Hir): (r: seq<bytes>)
    requires WellFormed(h) && !Has(h, NotLiteral)
    ensures |r| > 0
    decreases h, 1
  {
    match h
    case Literal(b) => [[b]]
    case Class(bitmap) =>
      MembersSpec(bitmap);
      if bitmap == {} then [[]] else Singles(Members(bitmap))
    case Mask(value, mask, _) => Singles(MaskBytes(value, mask))
    case Group(g) => Kept(g)
    case Concat(hs) => KeptAll(hs)
    case Alternation(hs) => KeptBranches(hs)
    case _ => [[]]
  }

  function KeptAll(hs: seq<Hir>): (r: seq<bytes>)
    requires AllWellFormed(hs) && !HasAny(hs, NotLiteral)
    ensures |r| > 0
    decreases hs, 0
  {
    if hs == [] then [[]]
    else if RestartsAny(hs[1..]) then KeptAll(hs[1..])
    else
      ProductLength(Kept(hs[0]), KeptAll(hs[1..]));
      Product(Kept(hs[0]), KeptAll(hs[1..]))
  }

  function KeptBranches(hs: seq<Hir>): (r: seq<bytes>)
    requires AllWellFormed(hs) && !HasAny(hs, NotLiteral)
    ensures hs != [] ==> |r| > 0
    decreases hs, 0
  {
    if hs == [] then [] else Kept(hs[0]) + KeptBranches(hs[1..])
  }

  /** The literals so far, buffer included. */
  function Current(l: Lits): seq<bytes>
    requires l.all.Some?
  {
    CommitBuffer(l).all.value
  }

  lemma CurrentOfCommitted(ws: seq<bytes>)
    requires ws != []
    ensures Current(Lits(Some(ws), [])) == ws
  {
    assert forall k :: 0 <= k < |ws| ==> ws[k] + [] == ws[k];
  }

  lemma CurrentLiteral(l: Lits, b: byte)
    requires l.all.Some?
    ensures Current(l.(buffer := l.buffer + [b])) == Product(Current(l), [[b]])
  {
    var next := l.(buffer := l.buffer + [b]);
    ProductSuffixed(Current(l), [b]);
    if l.all.value != [] {
      var ws := l.all.value;
      assert forall k :: 0 <= k < |ws| ==> (ws[k] + l.buffer) + [b] == ws[k] + (l.buffer + [b]);
    }
  }

  lemma CurrentProduct(l: Lits, suffixes: seq<bytes>)
    requires l.all.Some? && suffixes != []
    ensures Current(CartesianProduct(CommitBuffer(l), suffixes)) == Product(Current(l), suffixes)
  {
    ProductLength(Current(l), suffixes);
    CurrentOfCommitted(Product(Current(l), suffixes));
  }

  lemma ProductEmpty(xs: seq<bytes>)
    ensures Product(xs, []) == []
  {
    ProductLength(xs, []);
  }

  /** The extraction fails exactly on a node that is not made of literals; otherwise it extends the literals so far. */
  lemma {:induction false} AfterMeans(h: Hir, l: Lits)
    requires WellFormed(h) && l.all.Some?
    ensures After(h, l).all.None? <==> Has(h, NotLiteral)
    ensures !Has(h, NotLiteral) ==>
              Current(After(h, l)) == if Restarts(h) then Kept(h) else Product(Current(l), Kept(h))
    decreases h, 1
  {
    match h
    case Literal(b) => CurrentLiteral(l, b);
    case Mask(value, mask, negated) =>
      if !negated { CurrentProduct(l, Singles(MaskBytes(value, mask))); }
    case Class(bitmap) =>
      MembersSpec(bitmap);
      if bitmap == {} {
        ProductEmpty(Current(l));
        assert Singles(Members(bitmap)) == [];
      } else {
        CurrentProduct(l, Singles(Members(bitmap)));
      }
    case Group(g) => AfterMeans(g, l);
    case Concat(hs) => AfterAllMeans(hs, l);
    case Alternation(hs) =>
      AfterBranchesMeans(hs, AltLiterals(Some(Current(l)), []));
      if !HasAny(hs, NotLiteral) {
        assert [] + KeptBranches(hs) == KeptBranches(hs);
        ProductLength(Current(l), KeptBranches(hs));
        CurrentOfCommitted(Product(Current(l), KeptBranches(hs)));
      }
    case Empty => ProductUnits(Current(l));
    case _ =>
  }

  lemma {:induction false} AfterAllMeans(hs: seq<Hir>, l: Lits)
    requires AllWellFormed(hs)
    ensures l.all.None? ==> AfterAll(hs, l).all.None?
    ensures l.all.Some? ==> (AfterAll(hs, l).all.None? <==> HasAny(hs, NotLiteral))
    ensures l.all.Some? && !HasAny(hs, NotLiteral) ==>
              Current(AfterAll(hs, l)) == if RestartsAny(hs) then KeptAll(hs) else Product(Current(l), KeptAll(hs))
    decreases hs, 0
  {
    if hs != [] {
      if l.all.Some? { AfterMeans(hs[0], l); }
      AfterAllMeans(hs[1..], After(hs[0], l));
      if l.all.Some? && !HasAny(hs, NotLiteral) {
        ProductAssociative(Current(l), Kept(hs[0]), KeptAll(hs[1..]));
      }
    } else if l.all.Some? {
      ProductUnits(Current(l));
    }
  }

  lemma {:induction false} AfterBranchesMeans(hs: seq<Hir>, v: AltLiterals)
    requires AllWellFormed(hs)
    ensures AfterBranches(hs, v).prevLits.None? <==> v.prevLits.None? || HasAny(hs, NotLiteral)
    ensures v.prevLits.Some? && !HasAny(hs, NotLiteral) ==>
              AfterBranches(hs, v) == v.(branchLits := v.branchLits + KeptBranches(hs))
    decreases hs, 0
  {
    if hs != [] {
      BranchMeans(hs[0], v);
      AfterBranchesMeans(hs[1..], CloseBranch(v, After(hs[0], FRESH)));
      if v.prevLits.Some? && !HasAny(hs, NotLiteral) {
        AppendAssociative(v.branchLits, Kept(hs[0]), KeptBranches(hs[1..]));
      }
    } else {
      assert v.branchLits + [] == v.branchLits;
    }
  }

  lemma AppendAssociative(xs: seq<bytes>, ys: seq<bytes>, zs: seq<bytes>)
    ensures (xs + ys) + zs == xs + (ys + zs)
  {
  }

  lemma {:induction false} BranchMeans(h: Hir, v: AltLiterals)
    requires WellFormed(h)
    ensures CloseBranch(v, After(h, FRESH))
         == if Has(h, NotLiteral) then v.(prevLits := None) else v.(branchLits := v.branchLits + Kept(h))
    decreases h, 2
  {
    AfterMeans(h, FRESH);
    if !Has(h, NotLiteral) {
      assert Current(FRESH) == [[]];
      ProductUnits(Kept(h));
    }
  }

  // ----- When the literals kept are the words of the HIR -----

  /** Without an empty class nothing restarts, and the literals kept are the words, in the same order. */
  lemma {:induction false} KeptIsWords(h: Hir)
    requires WellFormed(h) && !Has(h, NotLiteral) && !Has(h, EmptyClass)
    ensures !Restarts(h) && Kept(h) == WordsOf(h)
    decreases h, 1
  {
    match h
    case Group(g) => KeptIsWords(g);
    case Concat(hs) => KeptAllIsWords(hs);
    case Alternation(hs) => KeptBranchesIsWords(hs);
    case _ =>
  }

  lemma {:induction false} KeptAllIsWords(hs: seq<Hir>)
    requires AllWellFormed(hs) && !HasAny(hs, NotLiteral) && !HasAny(hs, EmptyClass)
    ensures !RestartsAny(hs) && KeptAll(hs) == WordsOfAll(hs)
    decreases hs, 0
  {
    if hs != [] {
      KeptIsWords(hs[0]);
      KeptAllIsWords(hs[1..]);
    }
  }

  lemma {:induction false} KeptBranchesIsWords(hs: seq<Hir>)
    requires AllWellFormed(hs) && !HasAny(hs, NotLiteral) && !HasAny(hs, EmptyClass)
    ensures KeptBranches(hs) == WordsOfBranches(hs)
    decreases hs, 0
  {
    if hs != [] {
      KeptIsWords(hs[0]);
      KeptBranchesIsWords(hs[1..]);
    }
  }

  /** An empty class always makes the extraction keep too many literals. */
  lemma {:induction false} KeptIsMore(h: Hir)
    requires WellFormed(h) && !Has(h, NotLiteral)
    ensures |Kept(h)| >= |WordsOf(h)|
    ensures Has(h, EmptyClass) ==> |Kept(h)| > |WordsOf(h)|
    ensures Restarts(h) ==> |WordsOf(h)| == 0
    decreases h, 1
  {
    match h
    case Class(bitmap) => MembersSpec(bitmap);
    case Group(g) => KeptIsMore(g);
    case Concat(hs) => KeptAllIsMore(hs);
    case Alternation(hs) => KeptBranchesIsMore(hs);
    case _ =>
  }

  lemma ProductMonotone(a: nat, b: nat, c: nat)
    requires a <= b
    ensures a * c <= b * c && (a < b && c > 0 ==> a * c < b * c)
  {
    assert b * c == a * c + (b - a) * c;
    if a < b && c > 0 { assert (b - a) * c > 0; }
  }

  lemma ProductStrict(k: nat, m: nat, w: nat, x: nat)
    requires k >= w && m >= x && k > 0 && m > 0
    ensures k * m >= w * x
    ensures k > w || m > x ==> k * m > w * x
  {
    ProductMonotone(w, k, m);
    ProductMonotone(x, m, w);
    assert w * x == x * w && m * w == w * m;
  }

  lemma {:induction false} KeptAllIsMore(hs: seq<Hir>)
    requires AllWellFormed(hs) && !HasAny(hs, NotLiteral)
    ensures |KeptAll(hs)| >= |WordsOfAll(hs)|
    ensures HasAny(hs, EmptyClass) ==> |KeptAll(hs)| > |WordsOfAll(hs)|
    ensures RestartsAny(hs) ==> |WordsOfAll(hs)| == 0
    decreases hs, 0
  {
    if hs != [] {
      KeptIsMore(hs[0]);
      KeptAllIsMore(hs[1..]);
      var k, m, w, x := Kept(hs[0]), KeptAll(hs[1..]), WordsOf(hs[0]), WordsOfAll(hs[1..]);
      ProductLength(k, m);
      ProductLength(w, x);
      ProductStrict(|k|, |m|, |w|, |x|);
    }
  }

  lemma {:induction false} KeptBranchesIsMore(hs: seq<Hir>)
    requires AllWellFormed(hs) && !HasAny(hs, NotLiteral)
    ensures |KeptBranches(hs)| >= |WordsOfBranches(hs)|
    ensures HasAny(hs, EmptyClass) ==> |KeptBranches(hs)| > |WordsOfBranches(hs)|
    decreases hs, 0
  {
    if hs != [] {
      KeptIsMore(hs[0]);
      KeptBranchesIsMore(hs[1..]);
    }
  }

  // ----- The whole extraction -----

  /** The list that the extraction returns. */
  ghost function Result(h: Hir): Option<seq<bytes>>
    requires WellFormed(h)
  {
    CommitBuffer(After(h, FRESH)).all
  }

  /** Exact characterisation: the literals returned are the words of the HIR if and only if no class is empty. */
  lemma ResultIsWordsIff(h: Hir)
    requires WellFormed(h) && !Has(h, NotLiteral)
    ensures Result(h).Some?
    ensures Result(h).value == WordsOf(h) <==> !Has(h, EmptyClass)
    ensures |Result(h).value| >= |WordsOf(h)|
  {
    AfterMeans(h, FRESH);
    assert Current(FRESH) == [[]];
    ProductUnits(Kept(h));
    KeptIsMore(h);
    if !Has(h, EmptyClass) { KeptIsWords(h); }
  }

  /** Even with empty classes, no word is missed. */
  lemma {:induction false} NothingMissed(h: Hir, w: bytes)
    requires WellFormed(h) && !Has(h, NotLiteral) && w in WordsOf(h)
    ensures w in Kept(h)
    decreases h, 1
  {
    match h
    case Class(bitmap) => MembersSpec(bitmap);
    case Group(g) => NothingMissed(g, w);
    case Concat(hs) => NothingMissedInAll(hs, w);
    case Alternation(hs) => NothingMissedInBranches(hs, w);
    case _ =>
  }

  lemma {:induction false} NothingMissedInAll(hs: seq<Hir>, w: bytes)
    requires AllWellFormed(hs) && !HasAny(hs, NotLiteral) && w in WordsOfAll(hs)
    ensures w in KeptAll(hs)
    decreases hs, 0
  {
    if hs != [] {
      var x, y := ProductParts(WordsOf(hs[0]), WordsOfAll(hs[1..]), w);
      KeptAllIsMore(hs[1..]);
      NothingMissed(hs[0], x);
      NothingMissedInAll(hs[1..], y);
      ProductMember(Kept(hs[0]), KeptAll(hs[1..]), w);
    }
  }

  lemma ProductParts(xs: seq<bytes>, ys: seq<bytes>, w: bytes) returns (x: bytes, y: bytes)
    requires w in Product(xs, ys)
    ensures x in xs && y in ys && w == x + y
  {
    ProductMember(xs, ys, w);
    x, y :| x in xs && y in ys && w == x + y;
  }

  lemma {:induction false} NothingMissedInBranches(hs: seq<Hir>, w: bytes)
    requires AllWellFormed(hs) && !HasAny(hs, NotLiteral) && w in WordsOfBranches(hs)
    ensures w in KeptBranches(hs)
    decreases hs, 0
  {
    if hs != [] {
      if w in WordsOf(hs[0]) { NothingMissed(hs[0], w); } else { NothingMissedInBranches(hs[1..], w); }
    }
  }

  /** Without an alternation, an empty class leaves no word at all. */
  lemma {:induction false} NoWordLeft(h: Hir)
    requires WellFormed(h) && !Has(h, NotLiteral) && Has(h, EmptyClass) && !Has(h, AnyAlternation)
    ensures WordsOf(h) == []
    decreases h, 1
  {
    match h
    case Class(bitmap) => MembersSpec(bitmap);
    case Group(g) => NoWordLeft(g);
    case Concat(hs) => NoWordLeftInAll(hs);
    case _ =>
  }

  lemma {:induction false} NoWordLeftInAll(hs: seq<Hir>)
    requires AllWellFormed(hs) && !HasAny(hs, NotLiteral) && HasAny(hs, EmptyClass) && !HasAny(hs, AnyAlternation)
    ensures WordsOfAll(hs) == []
    decreases hs, 0
  {
    ProductLength(WordsOf(hs[0]), WordsOfAll(hs[1..]));
    if Has(hs[0], EmptyClass) { NoWordLeft(hs[0]); } else { NoWordLeftInAll(hs[1..]); }
  }

  /** The literals returned never miss a word of the HIR. They are its words, as a set, when no class is empty; without an
      alternation, only then. */
  lemma ResultIsLanguage(h: Hir)
    requires WellFormed(h) && !Has(h, NotLiteral)
    ensures Result(h).Some? && forall w :: w in WordsOf(h) ==> w in Result(h).value
    ensures !Has(h, EmptyClass) ==> forall w :: w in WordsOf(h) <==> w in Result(h).value
    ensures !Has(h, AnyAlternation) ==>
              ((forall w :: w in WordsOf(h) <==> w in Result(h).value) <==> !Has(h, EmptyClass))
  {
    ResultIsWordsIff(h);
    ResultIsKept(h);
    forall w | w in WordsOf(h) ensures w in Result(h).value { NothingMissed(h, w); }
    if Has(h, EmptyClass) && !Has(h, AnyAlternation) {
      NoWordLeft(h);
      assert Result(h).value[0] in Result(h).value;
    }
  }

  lemma ResultIsKept(h: Hir)
    requires WellFormed(h) && !Has(h, NotLiteral)
    ensures Result(h) == Some(Kept(h))
  {
    AfterMeans(h, FRESH);
    assert Current(FRESH) == [[]];
    ProductUnits(Kept(h));
  }

  /** With an alternation, an empty class may be harmless: in `(|[^\x00-\xff])` both branches leave the empty word. */
  lemma HarmlessClass(empty: set<byte>)
    requires empty == {}
    ensures var h := Alternation([Empty, Class(empty)]);
            WellFormed(h) && !Has(h, NotLiteral) && Has(h, EmptyClass) && Result(h) == Some([[], []]) && WordsOf(h) == [[]]
  {
    var e, g := Hir.Empty, Class(empty);
    var hs := [e, g];
    assert hs[1..] == [g] && [g][1..] == [];
    MembersSpec(empty);
    assert !Has(e, NotLiteral) && !Has(g, NotLiteral) && Has(g, EmptyClass);
    HasAnyOne(g, NotLiteral);
    HasAnyOne(g, EmptyClass);
    assert !HasAny(hs, NotLiteral) && HasAny(hs, EmptyClass);
    assert AllWellFormed(hs);
    ResultIsKept(Alternation(hs));
    var one: seq<bytes> := [[]];
    assert KeptBranches([g]) == Kept(g) + [] == one;
    assert KeptBranches(hs) == Kept(e) + KeptBranches([g]) == one + one;
    var two: seq<bytes> := [[], []];
    assert one + one == two && Kept(Alternation(hs)) == KeptBranches(hs);
    assert WordsOfBranches([g]) == WordsOf(g) + [];
    assert WordsOfBranches(hs) == WordsOf(e) + WordsOfBranches([g]);
  }

  /** An input on which the result is wrong even as a set: an empty class followed by a byte matches nothing, and the
      extraction returns that byte as a literal. */
  lemma EmptyClassWitness(empty: set<byte>, b: byte, dotAll: bool, mem: bytes, i: nat, j: nat)
    requires empty == {}
    ensures WellFormed(Concat([Class(empty), Literal(b)]))
    ensures Result(Concat([Class(empty), Literal(b)])) == Some([[b]])
    ensures !Matches(Concat([Class(empty), Literal(b)]), dotAll, mem, i, j)
  {
    var hs := [Class(empty), Literal(b)];
    assert hs[1..] == [Literal(b)] && hs[1..][1..] == [];
    MembersSpec(empty);
    assert Singles(Members(empty)) == [];
    ProductEmpty(Current(FRESH));
    assert After(hs[0], FRESH) == Lits(Some([]), []);
    assert AfterAll(hs[1..], Lits(Some([]), [])) == Lits(Some([]), [b]);
    assert AfterAll(hs, FRESH) == Lits(Some([]), [b]);
    if Matches(Concat(hs), dotAll, mem, i, j) { var k := MatchesSeqFirst(hs, dotAll, mem, i, j); }
  }
}
