/** The matches of the variables of a rule (`evaluator/variable.rs`), searched by binary search. */
module VarMatches {
  import opened Base

  /** A match at address `base + offset`. The data of the match plays no part in conditions. */
  datatype StringMatch = StringMatch(base: nat, offset: nat, length: nat)

  /** `usize::saturating_add` */
  function Address(m: StringMatch): nat {
    Min(m.offset + m.base, USIZE_MAX)
  }

  /** Matches are listed by strictly increasing address. */
  ghost predicate Sorted(ms: seq<StringMatch>) {
    forall x, y :: 0 <= x < y < |ms| ==> Address(ms[x]) < Address(ms[y])
  }

  // ----- The naive definitions -----

  predicate ExistsAt(ms: seq<StringMatch>, offset: nat) {
    exists k :: 0 <= k < |ms| && Address(ms[k]) == offset
  }

  predicate ExistsIn(ms: seq<StringMatch>, from: nat, to: nat) {
    exists k :: 0 <= k < |ms| && from <= Address(ms[k]) <= to
  }

  function CountIn(ms: seq<StringMatch>, from: nat, to: nat): nat {
    if ms == [] then 0 else (if from <= Address(ms[0]) <= to then 1 else 0) + CountIn(ms[1..], from, to)
  }

  // ----- The searches -----

  /** What Rust promises of `binary_search_by_key` on a sorted slice: the index of an element with the key, or the
      index where one could be inserted. */
  datatype Found = Hit(index: nat) | Miss(index: nat)

  ghost predicate SearchContract(ms: seq<StringMatch>, key: nat, r: Found) {
    match r
    case Hit(k) => k < |ms| && Address(ms[k]) == key
    case Miss(k) =>
      && k <= |ms|
      && (forall x :: 0 <= x < k ==> Address(ms[x]) < key)
      && (forall x :: k <= x < |ms| ==> key < Address(ms[x]))
  }

  /** One binary search that keeps this contract; the results below hold for any other. */
  method BinarySearch(ms: seq<StringMatch>, key: nat) returns (r: Found)
    requires Sorted(ms)
    ensures SearchContract(ms, key, r)
  {
    var lo, hi := 0, |ms|;
    while lo < hi
      invariant 0 <= lo <= hi <= |ms|
      invariant forall x :: 0 <= x < lo ==> Address(ms[x]) < key
      invariant forall x :: hi <= x < |ms| ==> key < Address(ms[x])
    {
      var mid := (lo + hi) / 2;
      if Address(ms[mid]) == key {
        return Hit(mid);
      } else if Address(ms[mid]) < key {
        lo := mid + 1;
      } else {
        hi := mid;
      }
    }
    return Miss(lo);
  }

  method FindAt(ms: seq<StringMatch>, offset: nat) returns (r: bool)
    requires Sorted(ms)
    ensures r == ExistsAt(ms, offset)
  {
    var found := BinarySearch(ms, offset);
    r := found.Hit?;
  }

  /** Callers only ask for `from <= to`; otherwise nothing is in the range, and the source may answer true. */
  method FindIn(ms: seq<StringMatch>, from: nat, to: nat) returns (r: bool)
    requires Sorted(ms) && from <= to
    ensures r == ExistsIn(ms, from, to)
  {
    var found := BinarySearch(ms, from);
    var start := found.index;
    if start >= |ms| {
      return false;
    }
    return Address(ms[start]) <= to;
  }

  method CountMatchesIn(ms: seq<StringMatch>, from: nat, to: nat) returns (count: nat)
    requires Sorted(ms)
    ensures count == CountIn(ms, from, to)
  {
    var found := BinarySearch(ms, from);
    var start := found.index;
    count := 0;
    CountBelow(ms, from, to, start);
    for k := start to |ms|
      invariant start <= |ms|
      invariant count + CountIn(ms[k..], from, to) == CountIn(ms, from, to)
    {
      assert ms[k..][0] == ms[k] && ms[k..][1..] == ms[k + 1..];
      if Address(ms[k]) > to {
        CountAbove(ms[k..], from, to);
        return;
      }
      count := count + 1;
    }
  }

  /** Nothing before the starting index is in the range. */
  lemma {:induction false} CountBelow(ms: seq<StringMatch>, from: nat, to: nat, start: nat)
    requires start <= |ms| && forall x :: 0 <= x < start ==> Address(ms[x]) < from
    ensures CountIn(ms[start..], from, to) == CountIn(ms, from, to)
    decreases start
  {
    if start > 0 {
      CountBelow(ms, from, to, start - 1);
      assert ms[start - 1..][1..] == ms[start..];
    } else {
      assert ms[0..] == ms;
    }
  }

  /** Nothing is in the range once an address is above it. */
  lemma {:induction false} CountAbove(ms: seq<StringMatch>, from: nat, to: nat)
    requires Sorted(ms) && (ms != [] ==> Address(ms[0]) > to)
    ensures CountIn(ms, from, to) == 0
  {
    if ms != [] {
      assert Sorted(ms[1..]);
      CountAbove(ms[1..], from, to);
    }
  }
}
