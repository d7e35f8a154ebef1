/** The memory that is scanned (`memory.rs`): one buffer, or regions of an address space that are fetched on demand. */
module Memories {
  import opened Base

  /** A region of the address space. `fetchable`: whether its bytes can be had. */
  datatype Region = Region(start: nat, mem: bytes, fetchable: bool)

  function End(r: Region): nat {
    r.start + |r.mem|
  }

  /** Regions are listed by address, and do not overlap. */
  predicate Listed(rs: seq<Region>) {
    forall i, j :: 0 <= i < j < |rs| ==> End(rs[i]) <= rs[j].start
  }

  // ----- What the regions hold -----

  predicate Holds(r: Region, a: nat) {
    r.start <= a < End(r)
  }

  predicate Covered(rs: seq<Region>, a: nat) {
    exists j :: 0 <= j < |rs| && Holds(rs[j], a)
  }

  /** The byte at an address. */
  function ByteAt(rs: seq<Region>, a: nat): byte
    requires Covered(rs, a)
  {
    if Holds(rs[0], a) then rs[0].mem[a - rs[0].start]
    else
      assert Covered(rs[1..], a) by {
        var j :| 0 <= j < |rs| && Holds(rs[j], a);
        assert rs[1..][j - 1] == rs[j];
      }
      ByteAt(rs[1..], a)
  }

  predicate AllCovered(rs: seq<Region>, from: nat, to: nat) {
    forall a :: from <= a < to ==> Covered(rs, a)
  }

  function Content(rs: seq<Region>, from: nat, to: nat): (s: bytes)
    requires from <= to && AllCovered(rs, from, to)
    ensures |s| == to - from
    ensures forall k :: 0 <= k < |s| ==> s[k] == ByteAt(rs, from + k)
  {
    seq<byte>(to - from, k requires 0 <= k < to - from => ByteAt(rs, from + k))
  }

  /** The first address from `a` on that no region holds, when regions are listed. */
  function Reach(rs: seq<Region>, a: nat): (reach: nat)
    ensures a <= reach
  {
    if rs == [] then a else Reach(rs[1..], if Holds(rs[0], a) then End(rs[0]) else a)
  }

  lemma Holder(rs: seq<Region>, a: nat) returns (j: nat)
    requires Covered(rs, a)
    ensures j < |rs| && Holds(rs[j], a)
  {
    j :| 0 <= j < |rs| && Holds(rs[j], a);
  }

  lemma {:induction false} ReachIsFirstHole(rs: seq<Region>, a: nat)
    requires Listed(rs)
    ensures AllCovered(rs, a, Reach(rs, a)) && !Covered(rs, Reach(rs, a))
    decreases |rs|
  {
    if rs != [] {
      var r, t := rs[0], rs[1..];
      var b := if Holds(r, a) then End(r) else a;
      assert forall j :: 0 <= j < |t| ==> t[j] == rs[j + 1];
      ReachIsFirstHole(t, b);
      var reach := Reach(rs, a);
      forall x | a <= x < reach ensures Covered(rs, x) {
        if x < b {
          assert Holds(rs[0], x);
        } else {
          var j := Holder(t, x);
          assert Holds(rs[j + 1], x);
        }
      }
      forall j | 0 <= j < |rs| ensures !Holds(rs[j], reach) {
        if j > 0 {
          assert rs[j] == t[j - 1];
        } else if b < reach {
          // The first region ends before any address of the others.
          var m := Holder(t, reach - 1);
          assert End(rs[0]) <= rs[m + 1].start;
        }
      }
    }
  }

  function Concat(slices: seq<bytes>): bytes {
    if slices == [] then [] else slices[0] + Concat(slices[1..])
  }

  // ----- The loop over regions -----

  /** The slices passed to the callback, and whether the whole succeeds. `called`: a slice was passed already, and the
      next one must follow it. */
  function Visit(rs: seq<Region>, start: nat, end: nat, called: bool): (seq<bytes>, bool)
    requires start <= end
    decreases rs
  {
    if rs == [] then ([], called)
    else
      var r := rs[0];
      if called && start != r.start then ([], false)
      else if start < r.start then ([], called)
      else if start - r.start >= |r.mem| then Visit(rs[1..], start, end, called)
      else if !r.fetchable then ([], false)
      else
        var slice := r.mem[start - r.start..Min(|r.mem|, end - r.start)];
        if End(r) > USIZE_MAX then ([slice], false)
        else if End(r) >= end then ([slice], true)
        else
          var (rest, ok) := Visit(rs[1..], End(r), end, true);
          ([slice] + rest, ok)
  }

  /** The region has bytes of the range, or holds its start. */
  predicate Met(r: Region, start: nat, stop: nat) {
    r.start < End(r) && start < End(r) && (r.start < stop || r.start <= start)
  }

  /** Every region met can be fetched, and ends at an address. */
  predicate AllFetched(rs: seq<Region>, start: nat, stop: nat) {
    forall j :: 0 <= j < |rs| && Met(rs[j], start, stop) ==> rs[j].fetchable && End(rs[j]) <= USIZE_MAX
  }

  /** When the visit succeeds: the range is covered up to its end, or nothing is listed after the hole where it stops. */
  predicate Succeeds(rs: seq<Region>, start: nat, end: nat) {
    var reach := Reach(rs, start);
    && AllFetched(rs, start, Min(end, reach))
    && (end <= reach || forall j :: 0 <= j < |rs| ==> rs[j].start <= reach)
  }

  lemma {:induction false} ReachPast(rs: seq<Region>, a: nat)
    requires forall j :: 0 <= j < |rs| ==> a < rs[j].start
    ensures Reach(rs, a) == a
    decreases |rs|
  {
    if rs != [] { ReachPast(rs[1..], a); }
  }

  lemma ContentSplit(rs: seq<Region>, from: nat, mid: nat, to: nat)
    requires from <= mid <= to && AllCovered(rs, from, to)
    ensures AllCovered(rs, from, mid) && AllCovered(rs, mid, to)
    ensures Content(rs, from, to) == Content(rs, from, mid) + Content(rs, mid, to)
  {
  }

  lemma ContentOfFirst(rs: seq<Region>, from: nat, to: nat)
    requires rs != [] && rs[0].start <= from <= to <= End(rs[0])
    ensures AllCovered(rs, from, to) && Content(rs, from, to) == rs[0].mem[from - rs[0].start..to - rs[0].start]
  {
    forall a | from <= a < to ensures Covered(rs, a) { assert Holds(rs[0], a); }
    forall k | 0 <= k < to - from
      ensures Content(rs, from, to)[k] == rs[0].mem[from - rs[0].start..to - rs[0].start][k]
    {
      assert Holds(rs[0], from + k);
      assert ByteAt(rs, from + k) == rs[0].mem[from + k - rs[0].start];
    }
  }

  lemma ContentOfRest(rs: seq<Region>, from: nat, to: nat)
    requires rs != [] && from <= to && AllCovered(rs[1..], from, to)
    requires forall a :: from <= a < to ==> !Holds(rs[0], a)
    ensures AllCovered(rs, from, to) && Content(rs, from, to) == Content(rs[1..], from, to)
  {
    forall a | from <= a < to ensures Covered(rs, a) {
      var j := Holder(rs[1..], a);
      assert Holds(rs[j + 1], a);
    }
    forall k | 0 <= k < to - from ensures Content(rs, from, to)[k] == Content(rs[1..], from, to)[k] {
      assert !Holds(rs[0], from + k);
      assert ByteAt(rs, from + k) == ByteAt(rs[1..], from + k);
    }
  }

  lemma {:induction false} VisitMeans(rs: seq<Region>, start: nat, end: nat, called: bool)
    requires Listed(rs) && start <= end && (called ==> start < end && forall j :: 0 <= j < |rs| ==> start <= rs[j].start)
    ensures Visit(rs, start, end, called).1 <==> (called || start < Reach(rs, start)) && Succeeds(rs, start, end)
    ensures AllCovered(rs, start, Min(end, Reach(rs, start)))
    ensures Visit(rs, start, end, called).1 ==>
              Concat(Visit(rs, start, end, called).0) == Content(rs, start, Min(end, Reach(rs, start)))
    decreases |rs|
  {
    hide Succeeds, ByteAt, Content;
    ReachIsFirstHole(rs, start);
    if rs == [] {
      NothingLeft(start, end);
    } else {
      var r, t := rs[0], rs[1..];
      assert forall j :: 0 <= j < |t| ==> t[j] == rs[j + 1];
      if called && start != r.start {
        ReachPast(rs, start);
        GapFails(rs, start, end);
      } else if start < r.start {
        ReachPast(rs, start);
      } else if start - r.start >= |r.mem| {
        VisitMeans(t, start, end, called);
        SkipFirst(rs, start, end);
      } else if r.fetchable && End(r) <= USIZE_MAX {
        if End(r) >= end {
          LastRegion(rs, start, end);
        } else {
          VisitMeans(t, End(r), end, true);
          NextRegion(rs, start, end);
        }
      } else {
        UnfetchedFails(rs, start, end);
      }
    }
  }

  lemma NothingLeft(start: nat, end: nat)
    requires start <= end
    ensures Succeeds([], start, end) && Concat([]) == Content([], start, start)
  {
  }

  lemma GapFails(rs: seq<Region>, start: nat, end: nat)
    requires rs != [] && start < end && start < rs[0].start && Reach(rs, start) == start
    ensures !Succeeds(rs, start, end)
  {
  }

  lemma UnfetchedFails(rs: seq<Region>, start: nat, end: nat)
    requires rs != [] && start <= end && Holds(rs[0], start) && !(rs[0].fetchable && End(rs[0]) <= USIZE_MAX)
    ensures !Succeeds(rs, start, end)
  {
    assert Met(rs[0], start, Min(end, Reach(rs, start)));
  }

  /** A region that ends before the range plays no part. */
  lemma SkipFirst(rs: seq<Region>, start: nat, end: nat)
    requires Listed(rs) && rs != [] && rs[0].start <= start <= end && End(rs[0]) <= start
    ensures Reach(rs, start) == Reach(rs[1..], start) && (Succeeds(rs, start, end) <==> Succeeds(rs[1..], start, end))
    ensures var stop := Min(end, Reach(rs, start));
            && AllCovered(rs, start, stop) && AllCovered(rs[1..], start, stop)
            && Content(rs, start, stop) == Content(rs[1..], start, stop)
  {
    var t, stop := rs[1..], Min(end, Reach(rs, start));
    assert forall j :: 0 <= j < |t| ==> t[j] == rs[j + 1];
    ReachIsFirstHole(t, start);
    ContentOfRest(rs, start, stop);
    if Succeeds(t, start, end) {
      forall j | 0 <= j < |rs| && Met(rs[j], start, stop) ensures rs[j].fetchable && End(rs[j]) <= USIZE_MAX {
        if j > 0 { assert Met(t[j - 1], start, stop); }
      }
      if end > Reach(rs, start) {
        forall j | 0 <= j < |rs| ensures rs[j].start <= Reach(rs, start) {
          if j > 0 { assert t[j - 1].start <= Reach(t, start); }
        }
      }
    }
    if Succeeds(rs, start, end) {
      forall j | 0 <= j < |t| && Met(t[j], start, stop) ensures t[j].fetchable && End(t[j]) <= USIZE_MAX {
        assert Met(rs[j + 1], start, stop);
      }
    }
  }

  /** The region that holds the start also holds the end. */
  lemma LastRegion(rs: seq<Region>, start: nat, end: nat)
    requires Listed(rs) && rs != [] && start <= end <= End(rs[0]) && Holds(rs[0], start)
    requires rs[0].fetchable && End(rs[0]) <= USIZE_MAX
    ensures start < Reach(rs, start) && Succeeds(rs, start, end) && Min(end, Reach(rs, start)) == end
    ensures AllCovered(rs, start, end)
    ensures Concat([rs[0].mem[start - rs[0].start..Min(|rs[0].mem|, end - rs[0].start)]]) == Content(rs, start, end)
  {
    ContentOfFirst(rs, start, end);
    var slice := rs[0].mem[start - rs[0].start..end - rs[0].start];
    var one := [slice];
    assert slice + [] == slice && one[1..] == [];
    forall j | 0 < j < |rs| ensures !Met(rs[j], start, end) { assert End(rs[0]) <= rs[j].start; }
  }

  /** The range goes past the region that holds its start. */
  lemma NextRegion(rs: seq<Region>, start: nat, end: nat)
    requires Listed(rs) && rs != [] && start <= End(rs[0]) < end && Holds(rs[0], start)
    requires rs[0].fetchable && End(rs[0]) <= USIZE_MAX
    ensures Reach(rs, start) == Reach(rs[1..], End(rs[0])) && start < Reach(rs, start)
    ensures Succeeds(rs, start, end) <==> Succeeds(rs[1..], End(rs[0]), end)
    ensures var mid, stop := End(rs[0]), Min(end, Reach(rs, start));
            && mid <= stop && AllCovered(rs, start, stop) && AllCovered(rs[1..], mid, stop)
            && Content(rs, start, stop) == rs[0].mem[start - rs[0].start..] + Content(rs[1..], mid, stop)
  {
    hide Succeeds, Content, ByteAt;
    var t, mid, stop := rs[1..], End(rs[0]), Min(end, Reach(rs, start));
    NextSucceeds(rs, start, end);
    ReachIsFirstHole(t, mid);
    ContentOfFirst(rs, start, mid);
    ContentOfRest(rs, mid, stop);
    forall a | start <= a < stop ensures Covered(rs, a) {
      if a < mid { assert Holds(rs[0], a); }
    }
    ContentSplit(rs, start, mid, stop);
    assert rs[0].mem[start - rs[0].start..|rs[0].mem|] == rs[0].mem[start - rs[0].start..];
  }

  lemma NextSucceeds(rs: seq<Region>, start: nat, end: nat)
    requires Listed(rs) && rs != [] && start <= End(rs[0]) < end && Holds(rs[0], start)
    requires rs[0].fetchable && End(rs[0]) <= USIZE_MAX
    ensures Succeeds(rs, start, end) <==> Succeeds(rs[1..], End(rs[0]), end)
  {
    var t, mid, stop := rs[1..], End(rs[0]), Min(end, Reach(rs, start));
    assert forall j :: 0 <= j < |t| ==> t[j] == rs[j + 1];
    assert Reach(rs, start) == Reach(t, mid);
    ReachIsFirstHole(t, mid);
    if Succeeds(rs, start, end) {
      forall j | 0 <= j < |t| && Met(t[j], mid, stop) ensures t[j].fetchable && End(t[j]) <= USIZE_MAX {
        if t[j].start == mid { assert Holds(t[j], mid); }
        assert Met(rs[j + 1], start, stop);
      }
    }
    if Succeeds(t, mid, end) {
      forall j | 0 <= j < |rs| && Met(rs[j], start, stop) ensures rs[j].fetchable && End(rs[j]) <= USIZE_MAX {
        if j > 0 {
          assert End(rs[0]) <= rs[j].start;
          assert Met(t[j - 1], mid, stop);
        }
      }
      if end > Reach(rs, start) {
        forall j | 0 <= j < |rs| ensures rs[j].start <= Reach(rs, start) {
          if j > 0 { assert t[j - 1].start <= Reach(t, mid); }
        }
      }
    }
  }

  // ----- Fragmented memory, and the two accesses -----

  /** A memory whose regions are listed one after the other. */
  class FragmentedMemory {
    const regions: seq<Region>
    var listed: nat

    constructor (regions: seq<Region>)
      ensures this.regions == regions && listed == 0
    {
      this.regions := regions;
      listed := 0;
    }

    predicate Valid()
      reads this
    {
      listed <= |regions|
    }

    /** The region last listed is this one; `None` when there are no more. */
    predicate Listing(region: Option<(nat, nat)>)
      reads this
    {
      && Valid()
      && if region.None? then listed == |regions|
         else listed > 0 && region.value == (regions[listed - 1].start, |regions[listed - 1].mem|)
    }

    /** The index of the region last listed, or of the end. */
    function Index(region: Option<(nat, nat)>): nat
      requires Listing(region)
      reads this
    {
      if region.None? then listed else listed - 1
    }

    method Reset()
      modifies this
      ensures listed == 0
    {
      listed := 0;
    }

    /** The start and length of the next region. */
    method Next() returns (r: Option<(nat, nat)>)
      requires Valid()
      modifies this
      ensures r.Some? == (old(listed) < |regions|) && listed == old(listed) + if r.Some? then 1 else 0
      ensures Listing(r) && Index(r) == old(listed)
    {
      if listed == |regions| { return None; }
      r := Some((regions[listed].start, |regions[listed].mem|));
      listed := listed + 1;
    }

    /** The bytes of the last region listed. */
    method Fetch() returns (r: Option<bytes>)
      requires Valid() && listed > 0
      ensures r == if regions[listed - 1].fetchable then Some(regions[listed - 1].mem) else None
    {
      r := if regions[listed - 1].fetchable then Some(regions[listed - 1].mem) else None;
    }
  }

  datatype Memory = Direct(mem: bytes) | Fragmented(obj: FragmentedMemory, canRefetch: bool)

  /** What `on_range` does: the slices passed to the callback, and whether it succeeds. */
  ghost function OnRangeOf(m: Memory, start: nat, end: nat): (seq<bytes>, bool) {
    if end < start then ([], false)
    else
      match m
      case Direct(mem) => if start >= |mem| then ([], false) else ([mem[start..Min(|mem|, end)]], true)
      case Fragmented(obj, canRefetch) => if canRefetch then Visit(obj.regions, start, end, false) else ([], false)
  }

  method OnRange(m: Memory, from: nat, end: nat) returns (slices: seq<bytes>, ok: bool)
    requires end <= USIZE_MAX
    modifies if m.Fragmented? then {m.obj} else {}
    ensures (slices, ok) == OnRangeOf(m, from, end)
  {
    if end < from { return [], false; }
    match m {
      case Direct(mem) =>
        if from >= |mem| { return [], false; }
        return [mem[from..Min(|mem|, end)]], true;
      case Fragmented(obj, canRefetch) =>
        if !canRefetch { return [], false; }
        slices, ok := OnRegions(obj, from, end);
    }
  }

  method OnRegions(obj: FragmentedMemory, from: nat, end: nat) returns (slices: seq<bytes>, ok: bool)
    requires from <= end
    modifies obj
    ensures (slices, ok) == Visit(obj.regions, from, end, false)
  {
    hide VisitFrom, Put;
    ghost var rs, all := obj.regions, VisitFrom(obj.regions, 0, from, end, false);
    VisitFromStart(rs, from, end);
    PutNothing(all);
    var start: nat, called: bool := from, false;
    slices := [];
    obj.Reset();
    var region := obj.Next();
    while region.Some?
      invariant obj.Listing(region) && start <= end
      invariant all == Put(slices, VisitFrom(rs, obj.Index(region), start, end, called))
      decreases |obj.regions| - obj.listed, region.Some?
    {
      VisitStep(rs, obj.listed - 1, start, end, called);
      PutEnd(slices);
      var (regionStart, length) := region.value;
      if called && start != regionStart { return slices, false; }
      if start < regionStart { return slices, called; }
      if start - regionStart < length {
        var mem := obj.Fetch();
        if mem.None? { return slices, false; }
        var slice := mem.value[start - regionStart..Min(length, end - regionStart)];
        PutLast(slices, slice);
        called := true;
        if regionStart + length > USIZE_MAX { return slices + [slice], false; }
        start := regionStart + length;
        if start >= end { return slices + [slice], true; }
        PutTwice(slices, slice, VisitFrom(rs, obj.listed, start, end, true));
        slices := slices + [slice];
      }
      region := obj.Next();
    }
    VisitStep(rs, |rs|, start, end, called);
    PutEnd(slices);
    return slices, called;
  }

  /** The visit of the regions from the `i`th on. */
  function VisitFrom(rs: seq<Region>, i: nat, start: nat, end: nat, called: bool): (seq<bytes>, bool)
    requires start <= end && i <= |rs|
  {
    Visit(rs[i..], start, end, called)
  }

  lemma VisitFromStart(rs: seq<Region>, start: nat, end: nat)
    requires start <= end
    ensures VisitFrom(rs, 0, start, end, false) == Visit(rs, start, end, false)
  {
    assert rs[0..] == rs;
  }

  lemma PutNothing(r: (seq<bytes>, bool))
    ensures Put([], r) == r
  {
    assert [] + r.0 == r.0;
  }

  lemma PutEnd(slices: seq<bytes>)
    ensures forall ok :: Put(slices, ([], ok)) == (slices, ok)
  {
    assert slices + [] == slices;
  }

  lemma PutLast(slices: seq<bytes>, slice: bytes)
    ensures forall ok :: Put(slices, ([slice], ok)) == (slices + [slice], ok)
  {
  }

  /** One turn of the loop. */
  lemma VisitStep(rs: seq<Region>, i: nat, start: nat, end: nat, called: bool)
    requires start <= end && i <= |rs|
    ensures var now := VisitFrom(rs, i, start, end, called);
            if i == |rs| then now == ([], called)
            else if called && start != rs[i].start then now == ([], false)
            else if start < rs[i].start then now == ([], called)
            else if start >= End(rs[i]) then now == VisitFrom(rs, i + 1, start, end, called)
            else
              var slice := rs[i].mem[start - rs[i].start..Min(|rs[i].mem|, end - rs[i].start)];
              now == if !rs[i].fetchable then ([], false)
                     else if End(rs[i]) > USIZE_MAX then ([slice], false)
                     else if End(rs[i]) >= end then ([slice], true)
                     else Put([slice], VisitFrom(rs, i + 1, End(rs[i]), end, true))
  {
    if i < |rs| { assert rs[i..][0] == rs[i] && rs[i..][1..] == rs[i + 1..]; }
  }

  function Put(slices: seq<bytes>, r: (seq<bytes>, bool)): (seq<bytes>, bool) {
    (slices + r.0, r.1)
  }

  lemma PutTwice(slices: seq<bytes>, slice: bytes, r: (seq<bytes>, bool))
    ensures Put(slices, Put([slice], r)) == Put(slices + [slice], r)
  {
    assert slices + ([slice] + r.0) == slices + [slice] + r.0;
  }

  /** `get_contiguous`: only within the region that holds the start. */
  ghost function ContiguousOf(m: Memory, start: nat, end: nat): Option<bytes> {
    if end < start then None
    else
      match m
      case Direct(mem) => if start < |mem| && end <= |mem| then Some(mem[start..end]) else None
      case Fragmented(obj, canRefetch) => if canRefetch then Within(obj.regions, start, end) else None
  }

  function Within(rs: seq<Region>, start: nat, end: nat): Option<bytes>
    requires start <= end
  {
    if rs == [] || start < rs[0].start then None
    else if start >= End(rs[0]) then Within(rs[1..], start, end)
    else if rs[0].fetchable && end <= End(rs[0]) then Some(rs[0].mem[start - rs[0].start..end - rs[0].start])
    else None
  }

  method GetContiguous(m: Memory, start: nat, end: nat) returns (r: Option<bytes>)
    modifies if m.Fragmented? then {m.obj} else {}
    ensures r == ContiguousOf(m, start, end)
  {
    if end < start { return None; }
    match m {
      case Direct(mem) => r := if start < |mem| && end <= |mem| then Some(mem[start..end]) else None;
      case Fragmented(obj, canRefetch) =>
        if !canRefetch { return None; }
        r := WithinRegion(obj, start, end);
    }
  }

  method WithinRegion(obj: FragmentedMemory, start: nat, end: nat) returns (r: Option<bytes>)
    requires start <= end
    modifies obj
    ensures r == Within(obj.regions, start, end)
  {
    ghost var rs := obj.regions;
    obj.Reset();
    var region := obj.Next();
    assert rs[0..] == rs;
    while region.Some?
      invariant obj.Listing(region) && Within(rs[obj.Index(region)..], start, end) == Within(rs, start, end)
      decreases |obj.regions| - obj.listed, region.Some?
    {
      assert rs[obj.listed - 1..][0] == rs[obj.listed - 1] && rs[obj.listed - 1..][1..] == rs[obj.listed..];
      var (regionStart, length) := region.value;
      if start < regionStart { return None; }
      if start - regionStart < length {
        var mem := obj.Fetch();
        if mem.None? { return None; }
        return if end - regionStart <= length then Some(mem.value[start - regionStart..end - regionStart]) else None;
      }
      region := obj.Next();
    }
    return None;
  }

  // ----- What the accesses mean -----

  /** A fragmented memory gives a range exactly when its start is covered, its regions can be fetched, and either the range
      is covered to its end or nothing at all is listed past the first hole; it gives the bytes up to there. */
  lemma OnRangeMeans(m: Memory, start: nat, end: nat)
    requires m.Fragmented? && m.canRefetch && Listed(m.obj.regions) && start <= end
    ensures var rs := m.obj.regions;
            var (slices, ok) := OnRangeOf(m, start, end);
            && (ok <==> Covered(rs, start) && Succeeds(rs, start, end))
            && AllCovered(rs, start, Min(end, Reach(rs, start)))
            && (ok ==> Concat(slices) == Content(rs, start, Min(end, Reach(rs, start))))
  {
    VisitMeans(m.obj.regions, start, end, false);
    ReachIsFirstHole(m.obj.regions, start);
  }

  /** A region beyond the range makes it fail, when the range is not covered to its end. */
  lemma FarRegionFails(m: Memory, start: nat, end: nat, far: Region)
    requires m.Fragmented? && m.canRefetch && Listed(m.obj.regions) && start <= end
    requires far in m.obj.regions && end < far.start && !AllCovered(m.obj.regions, start, end)
    ensures !OnRangeOf(m, start, end).1
  {
    VisitMeans(m.obj.regions, start, end, false);
    ReachIsFirstHole(m.obj.regions, start);
  }

  /** The regions `[0; 1[` and `[5; 6[`, and the range `[0; 2[`: the first byte is passed, and the whole fails. */
  lemma FarRegionWitness(m: Memory)
    requires m.Fragmented? && m.canRefetch && m.obj.regions == [Region(0, [7], true), Region(5, [7], true)]
    ensures OnRangeOf(m, 0, 2) == ([[7]], false)
  {
    hide Visit;
    VisitTwo(m.obj.regions);
  }

  lemma VisitTwo(rs: seq<Region>)
    requires rs == [Region(0, [7], true), Region(5, [7], true)]
    ensures Visit(rs, 0, 2, false) == ([[7]], false)
  {
    var rest: seq<Region> := rs[1..];
    assert rest == [Region(5, [7], true)];
    VisitGap(rest);
    assert rs[0].mem[0..1] == [7];
    assert [rs[0].mem[0..1]] + [] == [[7]];
  }

  lemma VisitGap(rs: seq<Region>)
    requires rs != [] && rs[0].start == 5
    ensures Visit(rs, 1, 2, true) == ([], false)
  {
  }

  /** The regions hold the addresses from `from` to `to`, one after the other. */
  predicate Tiles(rs: seq<Region>, from: nat, to: nat) {
    if rs == [] then from == to else rs[0].start == from && Tiles(rs[1..], End(rs[0]), to)
  }

  function Bytes(rs: seq<Region>): bytes {
    if rs == [] then [] else rs[0].mem + Bytes(rs[1..])
  }

  lemma {:induction false} TilesCover(rs: seq<Region>, from: nat, to: nat)
    requires Tiles(rs, from, to)
    ensures from <= to && |Bytes(rs)| == to - from && Listed(rs)
    ensures forall j :: 0 <= j < |rs| ==> from <= rs[j].start && End(rs[j]) <= to
    ensures forall a: nat :: Covered(rs, a) <==> from <= a < to
    ensures forall a: nat :: from <= a < to ==> ByteAt(rs, a) == Bytes(rs)[a - from]
    decreases |rs|
  {
    if rs != [] {
      var t := rs[1..];
      TilesCover(t, End(rs[0]), to);
      assert forall j :: 0 < j < |rs| ==> rs[j] == t[j - 1];
      forall a: nat ensures Covered(rs, a) <==> from <= a < to {
        if from <= a < End(rs[0]) {
          assert Holds(rs[0], a);
        } else if Covered(t, a) {
          var j := Holder(t, a);
          assert Holds(rs[j + 1], a);
        } else {
          forall j | 0 <= j < |rs| ensures !Holds(rs[j], a) {
            if j > 0 { assert rs[j] == t[j - 1]; }
          }
        }
      }
      forall a: nat | from <= a < to ensures ByteAt(rs, a) == Bytes(rs)[a - from] {
        if End(rs[0]) <= a { assert !Holds(rs[0], a) && Covered(t, a); }
      }
    }
  }

  /** Regions that tile a buffer give what the buffer gives. */
  lemma TilesAgreeWithDirect(m: Memory, start: nat, end: nat)
    requires m.Fragmented? && m.canRefetch && start <= end
    requires Tiles(m.obj.regions, 0, |Bytes(m.obj.regions)|) && |Bytes(m.obj.regions)| <= USIZE_MAX
    requires forall j :: 0 <= j < |m.obj.regions| ==> m.obj.regions[j].fetchable
    ensures var (slices, ok) := OnRangeOf(m, start, end);
            var (one, direct) := OnRangeOf(Direct(Bytes(m.obj.regions)), start, end);
            ok == direct && (ok ==> Concat(slices) == Concat(one))
  {
    var rs := m.obj.regions;
    var n := |Bytes(rs)|;
    TilesCover(rs, 0, n);
    OnRangeMeans(m, start, end);
    ReachIsFirstHole(rs, start);
    if start < n {
      var reach := Reach(rs, start);
      assert !Covered(rs, n) && !Covered(rs, reach) && reach == n;
      var slice := Bytes(rs)[start..Min(n, end)];
      var one := [slice];
      assert slice + [] == slice && one[1..] == [];
      assert Content(rs, start, Min(end, n)) == slice;
    }
  }

  lemma {:induction false} WithinMeans(rs: seq<Region>, start: nat, end: nat)
    requires Listed(rs) && start <= end && Within(rs, start, end).Some?
    ensures Covered(rs, start) && AllCovered(rs, start, end) && Within(rs, start, end).value == Content(rs, start, end)
    ensures exists r :: r in rs && Holds(r, start) && r.fetchable && end <= End(r)
    decreases |rs|
  {
    if start >= End(rs[0]) {
      WithinMeans(rs[1..], start, end);
      ContentOfRest(rs, start, end);
      var j := Holder(rs[1..], start);
      assert Holds(rs[j + 1], start);
    } else {
      ContentOfFirst(rs, start, end);
      assert Holds(rs[0], start);
    }
  }

  /** A range that one region holds, and that can be fetched, is found. */
  lemma {:induction false} WithinFinds(rs: seq<Region>, start: nat, end: nat, r: Region)
    requires Listed(rs) && start <= end && r in rs && Holds(r, start) && r.fetchable && end <= End(r)
    ensures Within(rs, start, end).Some?
    decreases |rs|
  {
    if rs[0] != r {
      var j :| 0 < j < |rs| && rs[j] == r;
      assert End(rs[0]) <= rs[j].start;
      WithinFinds(rs[1..], start, end, r);
    }
  }

  /** What is read in one piece is what the range gives, when no region reaches the end of the address space. */
  lemma ContiguousIsRange(m: Memory, start: nat, end: nat)
    requires ContiguousOf(m, start, end).Some?
    requires m.Fragmented? ==> Listed(m.obj.regions) && forall r :: r in m.obj.regions ==> End(r) <= USIZE_MAX
    ensures OnRangeOf(m, start, end).1 && Concat(OnRangeOf(m, start, end).0) == ContiguousOf(m, start, end).value
  {
    hide Content, ByteAt, Visit, Succeeds, Within;
    if m.Direct? {
      var slice := m.mem[start..end];
      var one := [slice];
      assert slice + [] == slice && one[1..] == [];
    } else {
      WithinMeans(m.obj.regions, start, end);
      WithinSucceeds(m.obj.regions, start, end);
      OnRangeMeans(m, start, end);
    }
  }

  lemma WithinSucceeds(rs: seq<Region>, start: nat, end: nat)
    requires Listed(rs) && start <= end && Within(rs, start, end).Some? && forall r :: r in rs ==> End(r) <= USIZE_MAX
    ensures Succeeds(rs, start, end) && end <= Reach(rs, start)
  {
    hide Met, Visit;
    hide Content, ByteAt, Within;
    WithinMeans(rs, start, end);
    ReachIsFirstHole(rs, start);
    var r :| r in rs && Holds(r, start) && r.fetchable && end <= End(r);
    var i :| 0 <= i < |rs| && rs[i] == r;
    OnlyMet(rs, i, start, end);
    assert !Covered(rs, Reach(rs, start)) && end <= Reach(rs, start);
  }

  /** A range inside a region meets no other. */
  lemma OnlyMet(rs: seq<Region>, i: nat, start: nat, end: nat)
    requires Listed(rs) && i < |rs| && Holds(rs[i], start) && start <= end <= End(rs[i])
    ensures forall j :: 0 <= j < |rs| && j != i ==> !Met(rs[j], start, end)
  {
    assert forall j :: i < j < |rs| ==> End(rs[i]) <= rs[j].start;
    assert forall j :: 0 <= j < i ==> End(rs[j]) <= rs[i].start;
  }
}
