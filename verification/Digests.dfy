/** The digests of the `math` module (`module/math.rs`), fed with slices of the memory. Sums are exact integers; the
    divisions on doubles that end them are not modelled. */
module Digests {
  import opened Base
  import opened Memories

  // ----- Mean -----

  function Total(data: bytes): nat {
    if data == [] then 0 else data[0] + Total(data[1..])
  }

  lemma {:induction false} TotalAppend(a: bytes, b: bytes)
    ensures Total(a + b) == Total(a) + Total(b)
    decreases |a|
  {
    if a == [] {
      assert a + b == b;
    } else {
      assert (a + b)[0] == a[0] && (a + b)[1..] == a[1..] + b;
      TotalAppend(a[1..], b);
    }
  }

  datatype MeanState = MeanState(sum: nat, nb: nat)

  const NO_MEAN: MeanState := MeanState(0, 0)

  function MeanAfter(s: MeanState, data: bytes): MeanState {
    MeanState(Min(s.sum + Total(data), U64_MAX), Min(s.nb + |data|, USIZE_MAX))
  }

  class Mean {
    var sum: nat
    var nb: nat

    constructor ()
      ensures State() == NO_MEAN
    {
      sum, nb := 0, 0;
    }

    function State(): MeanState
      reads this
    {
      MeanState(sum, nb)
    }

    method Update(data: bytes)
      requires sum <= U64_MAX
      modifies this
      ensures State() == MeanAfter(old(State()), data)
    {
      ghost var before := sum;
      assert data[0..] == data;
      for k := 0 to |data|
        invariant sum <= U64_MAX && nb == old(nb)
        invariant Min(sum + Total(data[k..]), U64_MAX) == Min(before + Total(data), U64_MAX)
      {
        assert data[k..][0] == data[k] && data[k..][1..] == data[k + 1..];
        sum := Min(sum + data[k], U64_MAX);
      }
      nb := Min(nb + |data|, USIZE_MAX);
    }
  }

  /** Saturation does not depend on how the bytes are cut. */
  lemma MeanOfChunks(s: MeanState, a: bytes, b: bytes)
    ensures MeanAfter(MeanAfter(s, a), b) == MeanAfter(s, a + b)
  {
    TotalAppend(a, b);
  }

  // ----- Distribution -----

  /** One counter per byte. */
  type Counters = s: seq<nat> | |s| == 256 witness NO_BYTES

  const NO_BYTES: seq<nat> := seq(256, _ => 0)

  datatype DistributionState = DistributionState(counters: Counters, nb: nat)

  function CountByte(data: bytes, b: byte): nat {
    if data == [] then 0 else (if data[0] == b then 1 else 0) + CountByte(data[1..], b)
  }

  lemma {:induction false} CountByteAppend(x: bytes, y: bytes, b: byte)
    ensures CountByte(x + y, b) == CountByte(x, b) + CountByte(y, b)
    decreases |x|
  {
    if x == [] {
      assert x + y == y;
    } else {
      assert (x + y)[0] == x[0] && (x + y)[1..] == x[1..] + y;
      CountByteAppend(x[1..], y, b);
    }
  }

  function Counted(counters: Counters, data: bytes): (r: Counters)
    ensures forall b: byte :: r[b] == counters[b] + CountByte(data, b)
  {
    var r := seq(256, (b: nat) requires b < 256 => counters[b] + CountByte(data, b));
    assert |r| == 256;
    r
  }

  function DistributionAfter(s: DistributionState, data: bytes): DistributionState {
    DistributionState(Counted(s.counters, data), s.nb + |data|)
  }

  class Distribution {
    const counters: array<nat>
    var nbValues: nat

    constructor ()
      ensures fresh(counters) && Valid() && State() == DistributionState(NO_BYTES, 0)
    {
      counters := new nat[256](_ => 0);
      nbValues := 0;
    }

    predicate Valid()
      reads this
    {
      counters.Length == 256
    }

    function State(): DistributionState
      requires Valid()
      reads this, counters
    {
      DistributionState(counters[..], nbValues)
    }

    method Update(data: bytes)
      requires Valid()
      modifies this, counters
      ensures Valid() && State() == DistributionAfter(old(State()), data)
    {
      assert data[0..] == data;
      for k := 0 to |data|
        invariant Valid() && nbValues == old(nbValues)
        invariant forall b: byte :: counters[b] + CountByte(data[k..], b) == old(counters[b]) + CountByte(data, b)
      {
        assert data[k..][0] == data[k] && data[k..][1..] == data[k + 1..];
        counters[data[k]] := counters[data[k]] + 1;
      }
      nbValues := nbValues + |data|;
      assert counters[..] == DistributionAfter(old(State()), data).counters;
    }
  }

  lemma DistributionOfChunks(s: DistributionState, a: bytes, b: bytes)
    ensures DistributionAfter(DistributionAfter(s, a), b) == DistributionAfter(s, a + b)
  {
    forall c: byte ensures CountByte(a + b, c) == CountByte(a, c) + CountByte(b, c) { CountByteAppend(a, b, c); }
    var x, y := DistributionAfter(DistributionAfter(s, a), b), DistributionAfter(s, a + b);
    forall c | 0 <= c < 256 ensures x.counters[c] == y.counters[c] {
      var c': byte := c;
      assert DistributionAfter(s, a).counters[c'] == s.counters[c'] + CountByte(a, c');
    }
  }

  // ----- Serial correlation -----

  function Times(x: nat, y: nat): nat {
    x * y
  }

  datatype SerialState = SerialState(products: nat, sum: nat, squares: nat, prev: byte, first: byte, last: byte,
                                     firstRange: bool, nb: nat)

  const NO_SERIAL: SerialState := SerialState(0, 0, 0, 0, 0, 0, true, 0)

  function AddByte(s: SerialState, c: byte): SerialState {
    s.(products := s.products + Times(s.prev, c), sum := s.sum + c, squares := s.squares + Times(c, c), prev := c)
  }

  function AddBytes(s: SerialState, data: bytes): SerialState
    decreases data
  {
    if data == [] then s else AddBytes(AddByte(s, data[0]), data[1..])
  }

  function SerialAfter(s: SerialState, data: bytes): SerialState {
    if data == [] then s
    else
      var marked := s.(first := if s.firstRange then data[0] else s.first, firstRange := false, last := data[|data| - 1]);
      var r := AddBytes(marked, data);
      r.(nb := r.nb + |data|)
  }

  class SerialCorrelation {
    var state: SerialState

    constructor ()
      ensures state == NO_SERIAL
    {
      state := NO_SERIAL;
    }

    method Update(data: bytes)
      modifies this
      ensures state == SerialAfter(old(state), data)
    {
      if data != [] {
        if state.firstRange { state := state.(firstRange := false, first := data[0]); }
        state := state.(last := data[|data| - 1]);
      }
      ghost var marked := state;
      assert data[0..] == data;
      for k := 0 to |data|
        invariant AddBytes(state, data[k..]) == AddBytes(marked, data)
      {
        assert data[k..][0] == data[k] && data[k..][1..] == data[k + 1..];
        state := AddByte(state, data[k]);
      }
      state := state.(nb := state.nb + |data|);
    }

    /** The sums of the formula, which `finalize` completes: the last byte is followed by the first. */
    function Sums(): (nat, nat, nat)
      reads this
    {
      SumsOf(state)
    }
  }

  function SumsOf(s: SerialState): (nat, nat, nat) {
    (s.products + if s.nb > 0 then Times(s.first, s.last) else 0, Times(s.sum, s.sum), s.squares)
  }

  lemma {:induction false} AddBytesAppend(s: SerialState, a: bytes, b: bytes)
    ensures AddBytes(s, a + b) == AddBytes(AddBytes(s, a), b)
    decreases |a|
  {
    if a == [] {
      assert a + b == b;
    } else {
      assert (a + b)[0] == a[0] && (a + b)[1..] == a[1..] + b;
      AddBytesAppend(AddByte(s, a[0]), a[1..], b);
    }
  }

  /** The marks on the first and last bytes play no part in the sums. */
  lemma {:induction false} AddBytesFrame(s: SerialState, data: bytes, first: byte, last: byte, fresh_: bool, nb: nat)
    ensures AddBytes(s.(first := first, last := last, firstRange := fresh_, nb := nb), data)
         == AddBytes(s, data).(first := first, last := last, firstRange := fresh_, nb := nb)
    ensures var r := AddBytes(s, data); r.first == s.first && r.last == s.last && r.firstRange == s.firstRange && r.nb == s.nb
    decreases |data|
  {
    if data != [] { AddBytesFrame(AddByte(s, data[0]), data[1..], first, last, fresh_, nb); }
  }

  lemma SerialOfChunks(s: SerialState, a: bytes, b: bytes)
    ensures SerialAfter(SerialAfter(s, a), b) == SerialAfter(s, a + b)
  {
    if a == [] {
      assert a + b == b;
    } else if b == [] {
      assert a + b == a;
    } else {
      var ab := a + b;
      var first := if s.firstRange then a[0] else s.first;
      var t := AddBytes(s, a);
      assert ab[0] == a[0] && ab[|ab| - 1] == b[|b| - 1];
      AddBytesAppend(s, a, b);
      AddBytesFrame(s, a, first, a[|a| - 1], false, s.nb);
      AddBytesFrame(s, ab, first, b[|b| - 1], false, s.nb);
      AddBytesFrame(t, b, first, b[|b| - 1], false, s.nb + |a|);
      AddBytesFrame(t, b, first, b[|b| - 1], false, s.nb);
    }
  }

  /** The closed forms of the comment: the sum of the products of neighbours, in a circle, and the sum of squares. */
  function Neighbours(data: bytes): nat {
    if |data| <= 1 then 0 else Times(data[0], data[1]) + Neighbours(data[1..])
  }

  function Circle(data: bytes): nat {
    if data == [] then 0 else Neighbours(data) + Times(data[|data| - 1], data[0])
  }

  function Squares(data: bytes): nat {
    if data == [] then 0 else Times(data[0], data[0]) + Squares(data[1..])
  }

  lemma {:induction false} AddBytesSums(s: SerialState, data: bytes)
    requires data != []
    ensures var r := AddBytes(s, data);
            && r.products == s.products + Times(s.prev, data[0]) + Neighbours(data)
            && r.sum == s.sum + Total(data) && r.squares == s.squares + Squares(data)
    decreases |data|
  {
    hide Times;
    var t := AddByte(s, data[0]);
    if |data| > 1 {
      AddBytesSums(t, data[1..]);
      assert Times(t.prev, data[1..][0]) == Times(data[0], data[1]);
    } else {
      assert data[1..] == [];
    }
  }

  /** From the start, the integer sums are those of the formula on the bytes taken in a circle, for every length. */
  lemma SerialIsCircle(data: bytes)
    ensures SumsOf(SerialAfter(NO_SERIAL, data)) == (Circle(data), Times(Total(data), Total(data)), Squares(data))
  {
    assert Times(0, if data == [] then 0 else data[0]) == 0;
    hide Times;
    if data != [] {
      var marked := NO_SERIAL.(first := data[0], firstRange := false, last := data[|data| - 1]);
      AddBytesSums(marked, data);
      AddBytesFrame(marked, data, data[0], data[|data| - 1], false, 0);
      Commute(data[0], data[|data| - 1]);
    }
  }

  lemma Commute(x: nat, y: nat)
    ensures Times(x, y) == Times(y, x)
  {
  }

  // ----- Monte Carlo -----

  datatype MonteState = MonteState(inmount: nat, mcount: nat)

  /** Three bytes as a number of 24 bits. */
  function Coordinate(w: bytes): nat
    requires |w| == 3
  {
    (w[0] as int * 256 + w[1] as int) * 256 + w[2] as int
  }

  const RADIUS: nat := 256 * 256 * 256 - 1

  /** Is the point of the six bytes in the circle? */
  predicate IsHit(w: bytes)
    requires |w| == 6
  {
    var x, y := Coordinate(w[..3]), Coordinate(w[3..]);
    Times(x, x) + Times(y, y) <= Times(RADIUS, RADIUS)
  }

  /** Six bytes at a time; what is left at the end is dropped. */
  function MonteAfter(s: MonteState, data: bytes): MonteState
    decreases data
  {
    if |data| < 6 then s
    else MonteAfter(MonteState(s.inmount + if IsHit(data[..6]) then 1 else 0, s.mcount + 1), data[6..])
  }

  class MonteCarloPi {
    var inmount: nat
    var mcount: nat

    constructor ()
      ensures State() == MonteState(0, 0)
    {
      inmount, mcount := 0, 0;
    }

    function State(): MonteState
      reads this
    {
      MonteState(inmount, mcount)
    }

    method Update(data: bytes)
      modifies this
      ensures State() == MonteAfter(old(State()), data)
    {
      hide IsHit;
      var k: nat := 0;
      assert data[0..] == data;
      while k + 6 <= |data|
        invariant k <= |data| && MonteAfter(State(), data[k..]) == MonteAfter(old(State()), data)
      {
        var w := data[k..k + 6];
        assert data[k..][..6] == w && data[k..][6..] == data[k + 6..];
        mcount := mcount + 1;
        var hit := Hits(w);
        if hit { inmount := inmount + 1; }
        k := k + 6;
      }
    }

    method Hits(w: bytes) returns (hit: bool)
      requires |w| == 6
      ensures hit == IsHit(w)
    {
      hide Times;
      CoordinateIsPrefix(w[..3]);
      CoordinateIsPrefix(w[3..]);
      var x: nat, y: nat := 0, 0;
      for j := 0 to 3
        invariant x == Prefix(w[..3], j) && y == Prefix(w[3..], j)
      {
        assert w[..3][j] == w[j] && w[3..][j] == w[j + 3];
        x := x * 256 + w[j] as int;
        y := y * 256 + w[j + 3] as int;
      }
      hit := Times(x, x) + Times(y, y) <= Times(RADIUS, RADIUS);
    }
  }

  /** The number made of the first `j` of three bytes. */
  function Prefix(w: bytes, j: nat): nat
    requires j <= 3 == |w|
  {
    if j == 0 then 0 else Prefix(w, j - 1) * 256 + w[j - 1] as int
  }

  lemma CoordinateIsPrefix(w: bytes)
    requires |w| == 3
    ensures Coordinate(w) == Prefix(w, 3)
  {
    assert Prefix(w, 1) == w[0] as int;
    assert Prefix(w, 2) == w[0] as int * 256 + w[1] as int;
  }

  /** The number of hits among the blocks of six bytes. */
  function CountHits(data: bytes): nat
    decreases data
  {
    if |data| < 6 then 0 else (if IsHit(data[..6]) then 1 else 0) + CountHits(data[6..])
  }

  lemma {:induction false} MonteCounts(s: MonteState, data: bytes)
    ensures MonteAfter(s, data) == MonteState(s.inmount + CountHits(data), s.mcount + |data| / 6)
    decreases |data|
  {
    hide IsHit;
    if |data| >= 6 {
      MonteCounts(MonteState(s.inmount + if IsHit(data[..6]) then 1 else 0, s.mcount + 1), data[6..]);
    }
  }

  lemma {:induction false} HitsAppend(a: bytes, b: bytes)
    requires |a| % 6 == 0
    ensures CountHits(a + b) == CountHits(a) + CountHits(b)
    decreases |a|
  {
    hide IsHit;
    if a == [] {
      assert a + b == b;
    } else {
      assert (a + b)[..6] == a[..6] && (a + b)[6..] == a[6..] + b;
      HitsAppend(a[6..], b);
    }
  }

  /** Only the blocks of six count: the end of the data is dropped. */
  lemma HitsOfBlocks(a: bytes, n: nat)
    requires n % 6 == 0 && n <= |a| < n + 6
    ensures CountHits(a) == CountHits(a[..n])
  {
    hide IsHit;
    assert a == a[..n] + a[n..];
    HitsAppend(a[..n], a[n..]);
  }

  function Repeat(b: byte, n: nat): bytes {
    seq(n, _ => b)
  }

  /** Blocks of zeros are hits, blocks of 0xFF are not. */
  lemma {:induction false} HitsOfRepeat(n: nat)
    ensures CountHits(Repeat(0, n)) == n / 6 && CountHits(Repeat(255, n)) == 0
    decreases n
  {
    if n >= 6 {
      HitsOfRepeat(n - 6);
      assert Repeat(0, n)[6..] == Repeat(0, n - 6) && Repeat(255, n)[6..] == Repeat(255, n - 6);
      assert Repeat(0, n)[..6] == [0, 0, 0, 0, 0, 0] && Repeat(255, n)[..6] == [255, 255, 255, 255, 255, 255];
      ZerosHit();
      OnesMiss();
    }
  }

  lemma PointOf(a: byte, b: byte, c: byte, d: byte, e: byte, f: byte)
    ensures var x, y := (a as int * 256 + b as int) * 256 + c as int, (d as int * 256 + e as int) * 256 + f as int;
            IsHit([a, b, c, d, e, f]) <==> x * x + y * y <= RADIUS * RADIUS
  {
    var w := [a, b, c, d, e, f];
    assert w[..3] == [a, b, c] && w[3..] == [d, e, f];
  }

  lemma ZerosHit()
    ensures IsHit([0, 0, 0, 0, 0, 0])
  {
    PointOf(0, 0, 0, 0, 0, 0);
  }

  lemma OnesMiss()
    ensures !IsHit([255, 255, 255, 255, 255, 255])
  {
    PointOf(255, 255, 255, 255, 255, 255);
  }

  /** Cut after whole blocks, or with too little after the cut to complete one, the digest is the same. */
  lemma MonteOfChunks(s: MonteState, a: bytes, b: bytes)
    requires |a| % 6 == 0 || |a| % 6 + |b| < 6
    ensures MonteAfter(MonteAfter(s, a), b) == MonteAfter(s, a + b)
  {
    hide IsHit, CountHits, MonteAfter;
    MonteCounts(s, a);
    MonteCounts(MonteAfter(s, a), b);
    MonteCounts(s, a + b);
    BlocksAdd(|a|, |b|);
    if |a| % 6 == 0 {
      HitsAppend(a, b);
    } else {
      var n := |a| - |a| % 6;
      HitsOfBlocks(a + b, n);
      HitsOfBlocks(a, n);
      NoBlock(b);
      assert (a + b)[..n] == a[..n];
    }
  }

  lemma NoBlock(data: bytes)
    requires |data| < 6
    ensures CountHits(data) == 0
  {
  }

  lemma FirstBlock(data: bytes)
    requires |data| >= 6
    ensures CountHits(data) == (if IsHit(data[..6]) then 1 else 0) + CountHits(data[6..])
  {
  }

  /** The numbers of whole blocks add up, or one more is made across the cut. */
  lemma BlocksAdd(m: nat, n: nat)
    ensures (m + n) / 6 == m / 6 + n / 6 + if m % 6 + n % 6 < 6 then 0 else 1
    ensures m % 6 + n < 6 ==> n % 6 == n
  {
  }

  /** The hits of the whole, when the cut is inside a block: that block, then the others shifted. */
  lemma HitsOfWhole(a: bytes, b: bytes, r: nat)
    requires 0 < r == |a| % 6 && 6 - r <= |b|
    ensures CountHits(a + b) == CountHits(a) + (if IsHit(a[|a| - r..] + b[..6 - r]) then 1 else 0) + CountHits(b[6 - r..])
  {
    hide IsHit, CountHits;
    var n := |a| - r;
    assert n % 6 == 0 && n <= |a| < n + 6;
    var w, rest := a[n..] + b[..6 - r], b[6 - r..];
    assert a == a[..n] + a[n..] && b == b[..6 - r] + rest;
    assert a + b == a[..n] + (w + rest);
    HitsAppend(a[..n], w + rest);
    HitsOfBlocks(a, n);
    assert (w + rest)[..6] == w && (w + rest)[6..] == rest;
    FirstBlock(w + rest);
  }

  /** Lengths for which two cuts of some bytes give different digests: more than half a block before the cut. */
  lemma LongStartDiffers(la: nat, lb: nat)
    requires 3 <= la % 6 && 6 <= la % 6 + lb
    ensures CountHits(Repeat(0, la) + Repeat(255, lb)) > CountHits(Repeat(0, la)) + CountHits(Repeat(255, lb))
  {
    var a, b, r := Repeat(0, la), Repeat(255, lb), la % 6;
    HitsOfRepeat(lb);
    HitsOfWhole(a, b, r);
    var w := a[la - r..] + b[..6 - r];
    assert w[..3] == [0, 0, 0];
    FirstZeroHits(w);
  }

  lemma FirstZeroHits(w: bytes)
    requires |w| == 6 && w[..3] == [0, 0, 0]
    ensures IsHit(w)
  {
    assert w[0] == w[..3][0] && w[1] == w[..3][1] && w[2] == w[..3][2];
    assert w == [w[0], w[1], w[2], w[3], w[4], w[5]];
    PointOf(0, 0, 0, w[3], w[4], w[5]);
    Below(Coordinate(w[3..]), RADIUS);
  }

  lemma Below(x: nat, y: nat)
    requires x <= y
    ensures x * x <= y * y
  {
  }

  /** And at most two bytes before the cut. */
  function Spike(r: nat, n: nat): bytes
    requires r <= 3 && 6 - r <= n
  {
    Repeat(0, 3 - r) + [255, 255, 255] + Repeat(0, n - (6 - r))
  }

  lemma ShortStartDiffers(la: nat, lb: nat)
    requires 1 <= la % 6 <= 2 && 6 <= lb && la % 6 + lb % 6 < 6
    ensures var a, b := Repeat(0, la - 1) + [1], Spike(la % 6, lb); CountHits(a + b) < CountHits(a) + CountHits(b)
  {
    hide IsHit, CountHits;
    var r, a, b := la % 6, Repeat(0, la - 1) + [1], Spike(la % 6, lb);
    FirstBlock(b);
    BlocksAdd(r, lb - 6);
    HitsOfWhole(a, b, r);
    assert b[6 - r..] == Repeat(0, lb - (6 - r)) && b[6..] == Repeat(0, lb - 6);
    HitsOfRepeat(lb - (6 - r));
    HitsOfRepeat(lb - 6);
    var w := a[la - r..] + b[..6 - r];
    if r == 1 {
      assert w == [1, 0, 0, 255, 255, 255] && b[..6] == [0, 0, 255, 255, 255, 0];
      PointOf(1, 0, 0, 255, 255, 255);
      PointOf(0, 0, 255, 255, 255, 0);
    } else {
      assert w == [0, 1, 0, 255, 255, 255] && b[..6] == [0, 255, 255, 255, 0, 0];
      PointOf(0, 1, 0, 255, 255, 255);
      PointOf(0, 255, 255, 255, 0, 0);
    }
  }

  /** Is the digest of bytes of these lengths the same, whatever the bytes, when they are cut between them? */
  ghost predicate CutAnywhere(s: MonteState, la: nat, lb: nat) {
    forall a: bytes, b: bytes :: |a| == la && |b| == lb ==> MonteAfter(MonteAfter(s, a), b) == MonteAfter(s, a + b)
  }

  /** Exactly when the cut falls between blocks, or too little comes after it to complete a block. */
  lemma MonteOfChunksIff(s: MonteState, la: nat, lb: nat)
    ensures CutAnywhere(s, la, lb) <==> la % 6 == 0 || la % 6 + lb < 6
  {
    hide CountHits, MonteAfter;
    if la % 6 == 0 || la % 6 + lb < 6 {
      forall a: bytes, b: bytes | |a| == la && |b| == lb
        ensures MonteAfter(MonteAfter(s, a), b) == MonteAfter(s, a + b)
      {
        MonteOfChunks(s, a, b);
      }
    } else {
      var a, b := Repeat(0, la), Repeat(255, lb);
      if la % 6 >= 3 {
        LongStartDiffers(la, lb);
      } else if la % 6 + lb % 6 < 6 {
        a, b := Repeat(0, la - 1) + [1], Spike(la % 6, lb);
        ShortStartDiffers(la, lb);
      } else {
        BlocksAdd(la, lb);
      }
      MonteCounts(s, a);
      MonteCounts(MonteAfter(s, a), b);
      MonteCounts(s, a + b);
      assert |a| == la && |b| == lb && MonteAfter(MonteAfter(s, a), b) != MonteAfter(s, a + b);
    }
  }

  // ----- Digests of ranges -----

  /** A digest fed with slices one after the other. */
  function Feed<S>(after: (S, bytes) -> S, s: S, slices: seq<bytes>): S
    decreases slices
  {
    if slices == [] then s else Feed(after, after(s, slices[0]), slices[1..])
  }

  ghost predicate ChunkInvariant<S(!new)>(after: (S, bytes) -> S, valid: S -> bool) {
    && (forall s, a, b :: valid(s) ==> after(after(s, a), b) == after(s, a + b))
    && (forall s, a :: valid(s) ==> valid(after(s, a)))
    && (forall s :: valid(s) ==> after(s, []) == s)
  }

  lemma {:induction false} FeedIsWhole<S(!new)>(after: (S, bytes) -> S, valid: S -> bool, s: S, slices: seq<bytes>)
    requires ChunkInvariant(after, valid) && valid(s)
    ensures Feed(after, s, slices) == after(s, Concat(slices))
    decreases |slices|
  {
    if slices != [] { FeedIsWhole(after, valid, after(s, slices[0]), slices[1..]); }
  }

  /** Mean, distribution and serial correlation are the same on fragmented memory that tiles a buffer, and on the buffer. */
  lemma DigestOfTiles<S(!new)>(m: Memory, start: nat, end: nat, after: (S, bytes) -> S, valid: S -> bool, s: S)
    requires m.Fragmented? && m.canRefetch && start <= end
    requires Tiles(m.obj.regions, 0, |Bytes(m.obj.regions)|) && |Bytes(m.obj.regions)| <= USIZE_MAX
    requires forall j :: 0 <= j < |m.obj.regions| ==> m.obj.regions[j].fetchable
    requires ChunkInvariant(after, valid) && valid(s)
    ensures var (slices, ok) := OnRangeOf(m, start, end);
            var (one, direct) := OnRangeOf(Direct(Bytes(m.obj.regions)), start, end);
            ok == direct && (ok ==> Feed(after, s, slices) == Feed(after, s, one))
  {
    TilesAgreeWithDirect(m, start, end);
    FeedIsWhole(after, valid, s, OnRangeOf(m, start, end).0);
    FeedIsWhole(after, valid, s, OnRangeOf(Direct(Bytes(m.obj.regions)), start, end).0);
  }

  lemma MeanIsInvariant()
    ensures ChunkInvariant(MeanAfter, (s: MeanState) => s.sum <= U64_MAX && s.nb <= USIZE_MAX)
  {
    forall s, a, b ensures MeanAfter(MeanAfter(s, a), b) == MeanAfter(s, a + b) { MeanOfChunks(s, a, b); }
  }

  lemma DistributionIsInvariant()
    ensures ChunkInvariant(DistributionAfter, (s: DistributionState) => true)
  {
    forall s, a, b ensures DistributionAfter(DistributionAfter(s, a), b) == DistributionAfter(s, a + b) {
      DistributionOfChunks(s, a, b);
    }
    forall s ensures DistributionAfter(s, []) == s {
      assert DistributionAfter(s, []).counters == s.counters;
    }
  }

  lemma SerialIsInvariant()
    ensures ChunkInvariant(SerialAfter, (s: SerialState) => true)
  {
    forall s, a, b ensures SerialAfter(SerialAfter(s, a), b) == SerialAfter(s, a + b) { SerialOfChunks(s, a, b); }
  }
}
