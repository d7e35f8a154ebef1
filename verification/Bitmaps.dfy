/** The 256-bit bitmap (`bitmaps.rs`): two halves of 128 bits, iterated in ascending order. */
module Bitmaps {
  import opened Base

  // ----- The specification of the iteration order -----

  /** The bytes of a set from `k` on, in ascending order. */
  function MembersFrom(s: set<byte>, k: nat): (r: seq<byte>)
    requires k <= 256
    decreases 256 - k, s // `s` keeps the verifier from unrolling the whole recursion on a literal `k`
  {
    if k == 256 then [] else (if k in s then [k as byte] else []) + MembersFrom(s, k + 1)
  }

  /** The bytes of a set in ascending order, as `Bitmap::iter` yields them. */
  function Members(s: set<byte>): seq<byte> {
    MembersFrom(s, 0)
  }

  ghost function Above(s: set<byte>, k: nat): set<byte> {
    set b | b in s && k <= b
  }

  lemma {:induction false} MembersFromOrdered(s: set<byte>, k: nat)
    requires k <= 256
    ensures forall b: byte :: b in MembersFrom(s, k) <==> b in s && k <= b
    ensures forall x, y :: 0 <= x < y < |MembersFrom(s, k)| ==> MembersFrom(s, k)[x] < MembersFrom(s, k)[y]
    decreases 256 - k
  {
    if k < 256 {
      var rest := MembersFrom(s, k + 1);
      MembersFromOrdered(s, k + 1);
      assert forall x :: 0 <= x < |rest| ==> rest[x] in rest;
    }
  }

  lemma {:induction false} MembersFromCount(s: set<byte>, k: nat)
    requires k <= 256
    ensures |MembersFrom(s, k)| == |Above(s, k)|
    decreases 256 - k
  {
    if k < 256 {
      MembersFromCount(s, k + 1);
      if k in s {
        assert Above(s, k) == Above(s, k + 1) + {k as byte};
      } else {
        assert Above(s, k) == Above(s, k + 1);
      }
    } else {
      assert Above(s, k) == {};
    }
  }

  /** The iteration yields exactly the members, each once, in strictly ascending order. */
  lemma MembersSpec(s: set<byte>)
    ensures forall b: byte :: b in Members(s) <==> b in s
    ensures forall x, y :: 0 <= x < y < |Members(s)| ==> Members(s)[x] < Members(s)[y]
    ensures |Members(s)| == |s|
  {
    MembersFromOrdered(s, 0);
    MembersFromCount(s, 0);
    assert Above(s, 0) == s;
  }

  // ----- The two halves -----

  const NO_BITS: seq<bool> := seq(128, _ => false)

  /** A `u128`, as its bits from the least significant one. */
  type Half = h: seq<bool> | |h| == 128 witness NO_BITS

  function BitsSet(h: seq<bool>): nat {
    if h == [] then 0 else (if h[0] then 1 else 0) + BitsSet(h[1..])
  }

  function TrailingZeros(h: seq<bool>): (k: nat)
    ensures k <= |h|
    ensures k < |h| ==> h[k]
    ensures forall x :: 0 <= x < k ==> !h[x]
  {
    if h == [] || h[0] then 0 else 1 + TrailingZeros(h[1..])
  }

  predicate HasBit(h: seq<bool>, offset: nat, k: byte) {
    offset <= k < offset + |h| && h[k - offset]
  }

  /** The bytes that the bits of `h` stand for, when bit 0 stands for `offset`. */
  ghost function Positions(h: seq<bool>, offset: nat): set<byte>
    requires offset + |h| <= 256
  {
    set k: byte | HasBit(h, offset, k)
  }

  lemma {:induction false} BitsSetIsCardinality(h: seq<bool>, offset: nat)
    requires offset + |h| <= 256
    ensures BitsSet(h) == |Positions(h, offset)|
    decreases |h|
  {
    if h == [] {
      assert Positions(h, offset) == {};
    } else {
      BitsSetIsCardinality(h[1..], offset + 1);
      assert Positions(h, offset) == Positions(h[1..], offset + 1) + (if h[0] then {offset as byte} else {});
    }
  }

  /** The set of bytes that a pair of halves stands for. */
  ghost function Denotes(low: Half, high: Half): set<byte> {
    Positions(low, 0) + Positions(high, 128)
  }

  function Complement(h: Half): (r: Half)
    ensures forall k :: 0 <= k < 128 ==> r[k] == !h[k]
  {
    seq(128, k requires 0 <= k < 128 => !h[k])
  }

  function Union(a: Half, b: Half): (r: Half)
    ensures forall k :: 0 <= k < 128 ==> r[k] == (a[k] || b[k])
  {
    seq(128, k requires 0 <= k < 128 => a[k] || b[k])
  }

  class Bitmap {
    var low: Half
    var high: Half

    ghost function View(): set<byte>
      reads this
    {
      Denotes(low, high)
    }

    constructor ()
      ensures View() == {}
    {
      low, high := NO_BITS, NO_BITS;
    }

    function Get(bit: byte): (r: bool)
      reads this
      ensures r <==> bit in View()
    {
      if bit < 128 then low[bit] else high[bit - 128]
    }

    method Set(bit: byte)
      modifies this
      ensures View() == old(View()) + {bit}
    {
      if bit < 128 {
        low := low[bit := true];
      } else {
        high := high[bit - 128 := true];
      }
    }

    method Invert()
      modifies this
      ensures View() == set b: byte | b !in old(View())
    {
      low := Complement(low);
      high := Complement(high);
    }

    /** `|=` */
    method OrAssign(other: Bitmap)
      modifies this
      ensures View() == old(View()) + old(other.View())
    {
      low, high := Union(low, other.low), Union(high, other.high);
    }

    method CountOnes() returns (n: nat)
      ensures n == |View()|
    {
      n := BitsSet(low) + BitsSet(high);
      BitsSetIsCardinality(low, 0);
      BitsSetIsCardinality(high, 128);
      assert Positions(low, 0) !! Positions(high, 128);
    }

    /** `Iter::next`, which consumes the copy of the bitmap that the iterator owns. */
    method Next() returns (r: Option<byte>)
      modifies this
      ensures r.None? <==> old(View()) == {}
      ensures r.None? ==> View() == {}
      ensures r.Some? ==> r.value in old(View()) && forall b :: b in old(View()) ==> r.value <= b
      ensures r.Some? ==> View() == old(View()) - {r.value}
    {
      var t := TrailingZeros(low);
      if t < 128 {
        assert t in View();
        low := low[t := false];
        return Some(t);
      }
      t := TrailingZeros(high);
      if t < 128 {
        assert t + 128 in View();
        high := high[t := false];
        return Some(128 + t);
      }
      return None;
    }

    /** Collecting the iterator yields the members in ascending order. */
    method Iterate() returns (r: seq<byte>)
      modifies this
      ensures r == Members(old(View()))
    {
      hide Members, MembersFrom, Above, View;
      r := [];
      ghost var all := View();
      MembersAre(all);
      ghost var from: nat := 0;
      while true
        invariant 0 <= from <= 256
        invariant View() == Above(all, from)
        invariant Members(all) == r + MembersFrom(all, from)
        decreases |View()|
      {
        var b := Next();
        if b.None? {
          NoneFrom(all, from);
          return;
        }
        SkipTo(all, from, b.value, r);
        r := r + [b.value];
        from := b.value as nat + 1;
      }
    }
  }

  lemma MembersAre(s: set<byte>)
    ensures Members(s) == MembersFrom(s, 0) && Above(s, 0) == s
  {
  }

  lemma {:induction false} NoneFrom(s: set<byte>, k: nat)
    requires k <= 256 && Above(s, k) == {}
    ensures MembersFrom(s, k) == []
    decreases 256 - k
  {
    if k < 256 {
      assert k as byte !in Above(s, k);
      assert Above(s, k + 1) <= Above(s, k);
      NoneFrom(s, k + 1);
    }
  }

  /** Yielding `b`, the least member from `k` on, after `r`. */
  lemma {:induction false} SkipTo(s: set<byte>, k: nat, b: byte, r: seq<byte>)
    requires b in Above(s, k) && forall x :: x in Above(s, k) ==> b <= x
    ensures r + MembersFrom(s, k) == r + [b] + MembersFrom(s, b + 1)
    ensures Above(s, b + 1) == Above(s, k) - {b}
    decreases b - k
  {
    if k < b {
      assert k as byte !in Above(s, k);
      assert Above(s, k + 1) == Above(s, k);
      SkipTo(s, k + 1, b, r);
    }
  }
}
