/** Lists of words, and the words matched by a HIR that has finitely many. */
module Words {
  import opened Base
  import opened Hir
  import opened Bitmaps
  import opened Analysis

  // ----- Products of lists of words -----

  /** Every word of `ys` after `x`. */
  function Prefixed(x: bytes, ys: seq<bytes>): (r: seq<bytes>)
    ensures |r| == |ys|
    ensures forall k :: 0 <= k < |ys| ==> r[k] == x + ys[k]
  {
    seq(|ys|, k requires 0 <= k < |ys| => x + ys[k])
  }

  /** Every word of `xs` followed by every word of `ys`, in lexicographic order of the positions. */
  function Product(xs: seq<bytes>, ys: seq<bytes>): seq<bytes> {
    if xs == [] then [] else Prefixed(xs[0], ys) + Product(xs[1..], ys)
  }

  /** Every word of `xs` followed by `y`. */
  function Suffixed(xs: seq<bytes>, y: bytes): (r: seq<bytes>)
    ensures |r| == |xs|
    ensures forall k :: 0 <= k < |xs| ==> r[k] == xs[k] + y
  {
    seq(|xs|, k requires 0 <= k < |xs| => xs[k] + y)
  }

  /** The one-byte words over the bytes of `bs`. */
  function Singles(bs: seq<byte>): (r: seq<bytes>)
    ensures |r| == |bs|
    ensures forall k :: 0 <= k < |bs| ==> r[k] == [bs[k]]
  {
    seq(|bs|, k requires 0 <= k < |bs| => [bs[k]])
  }

  lemma {:induction false} ProductLength(xs: seq<bytes>, ys: seq<bytes>)
    ensures |Product(xs, ys)| == |xs| * |ys|
  {
    if xs != [] {
      ProductLength(xs[1..], ys);
      assert |xs| * |ys| == (|xs| - 1) * |ys| + |ys|;
    }
  }

  lemma {:induction false} ProductMember(xs: seq<bytes>, ys: seq<bytes>, w: bytes)
    ensures w in Product(xs, ys) <==> exists x, y :: x in xs && y in ys && w == x + y
  {
    if xs != [] {
      ProductMember(xs[1..], ys, w);
      var first := Prefixed(xs[0], ys);
      if w in first {
        var k :| 0 <= k < |first| && first[k] == w;
        assert xs[0] in xs && ys[k] in ys && w == xs[0] + ys[k];
      }
      if exists x, y :: x in xs && y in ys && w == x + y {
        var x, y :| x in xs && y in ys && w == x + y;
        if x == xs[0] {
          var k :| 0 <= k < |ys| && ys[k] == y;
          assert first[k] == w;
        } else {
          assert x in xs[1..];
        }
      }
    }
  }

  lemma {:induction false} ProductAppend(xs1: seq<bytes>, xs2: seq<bytes>, ys: seq<bytes>)
    ensures Product(xs1 + xs2, ys) == Product(xs1, ys) + Product(xs2, ys)
  {
    if xs1 == [] {
      assert xs1 + xs2 == xs2;
    } else {
      assert (xs1 + xs2)[0] == xs1[0] && (xs1 + xs2)[1..] == xs1[1..] + xs2;
      ProductAppend(xs1[1..], xs2, ys);
    }
  }

  lemma {:induction false} ProductPrefixed(x: bytes, ys: seq<bytes>, zs: seq<bytes>)
    ensures Product(Prefixed(x, ys), zs) == Prefixed(x, Product(ys, zs))
  {
    if ys != [] {
      var p := Prefixed(x, ys);
      assert p[1..] == Prefixed(x, ys[1..]);
      ProductPrefixed(x, ys[1..], zs);
      assert Prefixed(p[0], zs) == Prefixed(x, Prefixed(ys[0], zs)) by {
        assert forall k :: 0 <= k < |zs| ==> (x + ys[0]) + zs[k] == x + (ys[0] + zs[k]);
      }
    }
  }

  lemma {:induction false} ProductAssociative(xs: seq<bytes>, ys: seq<bytes>, zs: seq<bytes>)
    ensures Product(Product(xs, ys), zs) == Product(xs, Product(ys, zs))
  {
    if xs != [] {
      ProductAppend(Prefixed(xs[0], ys), Product(xs[1..], ys), zs);
      ProductPrefixed(xs[0], ys, zs);
      ProductAssociative(xs[1..], ys, zs);
    }
  }

  lemma {:induction false} ProductUnits(xs: seq<bytes>)
    ensures Product(xs, [[]]) == xs
    ensures Product([[]], xs) == xs
  {
    var unit: seq<bytes> := [[]];
    assert forall k :: 0 <= k < |xs| ==> [] + xs[k] == xs[k] && xs[k] + [] == xs[k];
    assert Prefixed([], xs) == xs;
    assert unit[1..] == [];
    if xs != [] {
      ProductUnits(xs[1..]);
      assert Prefixed(xs[0], unit) == [xs[0]];
    }
  }

  lemma {:induction false} ProductSuffixed(xs: seq<bytes>, y: bytes)
    ensures Product(xs, [y]) == Suffixed(xs, y)
  {
    if xs != [] {
      ProductSuffixed(xs[1..], y);
      assert Prefixed(xs[0], [y]) == [xs[0] + y];
      assert Suffixed(xs, y) == [xs[0] + y] + Suffixed(xs[1..], y);
    }
  }

  // ----- The words of a HIR -----

  /** The bytes selected by a nibble mask, in ascending order. */
  function MaskBytes(value: byte, mask: byte): seq<byte>
    requires WellFormed(Mask(value, mask, false))
  {
    if mask == 0x0F then seq(16, i requires 0 <= i < 16 => 16 * i + value)
    else seq(16, i requires 0 <= i < 16 => value + i)
  }

  lemma MaskBytesSpec(value: byte, mask: byte, b: byte)
    requires WellFormed(Mask(value, mask, false))
    ensures b in MaskBytes(value, mask) <==> MaskSelects(value, mask, b)
  {
    if MaskSelects(value, mask, b) {
      if mask == 0x0F { assert MaskBytes(value, mask)[b / 16] == b; } else { assert MaskBytes(value, mask)[b % 16] == b; }
    }
  }

  /** The words of a HIR that holds no node of kind `NotLiteral`, with multiplicity and in order: the left-most choice
      varies slowest, branches come in order and bytes of a class in ascending order. */
  function WordsOf(h: Hir): seq<bytes>
    requires WellFormed(h) && !Has(h, NotLiteral)
    decreases h, 1
  {
    match h
    case Literal(b) => [[b]]
    case Class(bitmap) => Singles(Members(bitmap))
    case Mask(value, mask, _) => Singles(MaskBytes(value, mask))
    case Group(g) => WordsOf(g)
    case Concat(hs) => WordsOfAll(hs)
    case Alternation(hs) => WordsOfBranches(hs)
    case _ => [[]]
  }

  function WordsOfAll(hs: seq<Hir>): seq<bytes>
    requires AllWellFormed(hs) && !HasAny(hs, NotLiteral)
    decreases hs, 0
  {
    if hs == [] then [[]] else Product(WordsOf(hs[0]), WordsOfAll(hs[1..]))
  }

  function WordsOfBranches(hs: seq<Hir>): seq<bytes>
    requires AllWellFormed(hs) && !HasAny(hs, NotLiteral)
    decreases hs, 0
  {
    if hs == [] then [] else WordsOf(hs[0]) + WordsOfBranches(hs[1..])
  }

  lemma WordsOfAllOne(h: Hir)
    requires AllWellFormed([h]) && !HasAny([h], NotLiteral)
    ensures WordsOfAll([h]) == WordsOf(h)
  {
    HasAnyOne(h, NotLiteral);
    assert [h][0] == h && [h][1..] == [];
    ProductUnits(WordsOf(h));
  }

  lemma {:induction false} WordsOfAllAppend(xs: seq<Hir>, ys: seq<Hir>)
    requires AllWellFormed(xs) && !HasAny(xs, NotLiteral) && AllWellFormed(ys) && !HasAny(ys, NotLiteral)
    ensures AllWellFormed(xs + ys) && !HasAny(xs + ys, NotLiteral)
    ensures WordsOfAll(xs + ys) == Product(WordsOfAll(xs), WordsOfAll(ys))
    decreases |xs|
  {
    HasAnyAppend(xs, ys, NotLiteral);
    if xs == [] {
      assert xs + ys == ys;
      ProductUnits(WordsOfAll(ys));
    } else {
      assert (xs + ys)[0] == xs[0] && (xs + ys)[1..] == xs[1..] + ys;
      WordsOfAllAppend(xs[1..], ys);
      ProductAssociative(WordsOf(xs[0]), WordsOfAll(xs[1..]), WordsOfAll(ys));
    }
  }

  /** The number of words is what the analysis counts. */
  lemma {:induction false} WordsCounted(h: Hir, dotAll: bool)
    requires WellFormed(h) && !Has(h, NotLiteral)
    ensures |WordsOf(h)| == Count(h, dotAll)
    decreases h, 1
  {
    match h
    case Class(bitmap) => MembersSpec(bitmap);
    case Group(g) => WordsCounted(g, dotAll);
    case Concat(hs) => WordsCountedAll(hs, dotAll);
    case Alternation(hs) => WordsCountedBranches(hs, dotAll);
    case _ =>
  }

  lemma {:induction false} WordsCountedAll(hs: seq<Hir>, dotAll: bool)
    requires AllWellFormed(hs) && !HasAny(hs, NotLiteral)
    ensures |WordsOfAll(hs)| == CountProduct(hs, dotAll)
    decreases hs, 0
  {
    if hs != [] {
      WordsCounted(hs[0], dotAll);
      WordsCountedAll(hs[1..], dotAll);
      ProductLength(WordsOf(hs[0]), WordsOfAll(hs[1..]));
    }
  }

  lemma {:induction false} WordsCountedBranches(hs: seq<Hir>, dotAll: bool)
    requires AllWellFormed(hs) && !HasAny(hs, NotLiteral)
    ensures |WordsOfBranches(hs)| == CountSum(hs, dotAll)
    decreases hs, 0
  {
    if hs != [] {
      WordsCounted(hs[0], dotAll);
      WordsCountedBranches(hs[1..], dotAll);
    }
  }

  /** A HIR without `NotLiteral` nodes matches exactly its words, wherever they stand in the memory. */
  lemma {:induction false} MatchesIsWord(h: Hir, dotAll: bool, mem: bytes, i: nat, j: nat)
    requires WellFormed(h) && !Has(h, NotLiteral)
    requires i <= j <= |mem|
    ensures Matches(h, dotAll, mem, i, j) <==> mem[i..j] in WordsOf(h)
    decreases h, 1
  {
    match h
    case Class(bitmap) => MembersSpec(bitmap); SinglesMember(Members(bitmap), mem, i, j);
    case Mask(value, mask, _) =>
      SinglesMember(MaskBytes(value, mask), mem, i, j);
      if i < j { MaskBytesSpec(value, mask, mem[i]); }
    case Literal(b) => SinglesMember([b], mem, i, j); assert Singles([b]) == [[b]];
    case Empty => assert WordsOf(h)[0] == []; assert mem[i..j] == [] <==> i == j;
    case Group(g) => MatchesIsWord(g, dotAll, mem, i, j);
    case Concat(hs) => MatchesSeqIsWord(hs, dotAll, mem, i, j);
    case Alternation(hs) => MatchesBranchIsWord(hs, dotAll, mem, i, j);
  }

  lemma SinglesMember(bs: seq<byte>, mem: bytes, i: nat, j: nat)
    requires i <= j <= |mem|
    ensures mem[i..j] in Singles(bs) <==> j == i + 1 && mem[i] in bs
  {
    if j == i + 1 && mem[i] in bs {
      var k :| 0 <= k < |bs| && bs[k] == mem[i];
      assert Singles(bs)[k] == mem[i..j];
    }
  }

  lemma {:induction false} MatchesSeqIsWord(hs: seq<Hir>, dotAll: bool, mem: bytes, i: nat, j: nat)
    requires AllWellFormed(hs) && !HasAny(hs, NotLiteral)
    requires i <= j <= |mem|
    ensures MatchesSeq(hs, dotAll, mem, i, j) <==> mem[i..j] in WordsOfAll(hs)
    decreases hs, 0
  {
    hide WordsOf, Product, Matches, Prefixed;
    if hs != [] {
      var w, xs, ys := mem[i..j], WordsOf(hs[0]), WordsOfAll(hs[1..]);
      ProductMember(xs, ys, w);
      if MatchesSeq(hs, dotAll, mem, i, j) {
        var k := MatchesSeqFirst(hs, dotAll, mem, i, j);
        MatchesSeqBounds(hs[1..], dotAll, mem, k, j);
        MatchesIsWord(hs[0], dotAll, mem, i, k);
        MatchesSeqIsWord(hs[1..], dotAll, mem, k, j);
        assert w == mem[i..k] + mem[k..j];
      }
      if w in Product(xs, ys) {
        var x, y :| x in xs && y in ys && w == x + y;
        var k := i + |x|;
        assert mem[i..k] == w[..|x|] == x && mem[k..j] == w[|x|..] == y;
        MatchesIsWord(hs[0], dotAll, mem, i, k);
        MatchesSeqIsWord(hs[1..], dotAll, mem, k, j);
      }
    }
  }

  lemma {:induction false} MatchesBranchIsWord(hs: seq<Hir>, dotAll: bool, mem: bytes, i: nat, j: nat)
    requires AllWellFormed(hs) && !HasAny(hs, NotLiteral)
    requires i <= j <= |mem|
    ensures (exists k :: 0 <= k < |hs| && Matches(hs[k], dotAll, mem, i, j)) <==> mem[i..j] in WordsOfBranches(hs)
    decreases hs, 0
  {
    if hs != [] {
      MatchesIsWord(hs[0], dotAll, mem, i, j);
      MatchesBranchIsWord(hs[1..], dotAll, mem, i, j);
      if k :| 0 <= k < |hs| && Matches(hs[k], dotAll, mem, i, j) {
        if k > 0 { assert Matches(hs[1..][k - 1], dotAll, mem, i, j); }
      }
      if k :| 0 <= k < |hs[1..]| && Matches(hs[1..][k], dotAll, mem, i, j) {
        assert Matches(hs[k + 1], dotAll, mem, i, j);
      }
    }
  }
}
