/** Types shared by every module: bytes, machine integers, optional values. */
module Base {

  /** A `u8`. */
  type byte = b: int | 0 <= b < 256

  /** A `Vec<u8>` or a `&[u8]`. */
  type bytes = seq<byte>

  const USIZE_MAX: int := 0xFFFF_FFFF_FFFF_FFFF
  const U64_MAX: int := 0xFFFF_FFFF_FFFF_FFFF
  const I64_MIN: int := -0x8000_0000_0000_0000
  const I64_MAX: int := 0x7FFF_FFFF_FFFF_FFFF

  /** An `i64`. */
  type i64 = n: int | I64_MIN <= n <= I64_MAX

  datatype Option<+T> = None | Some(value: T)

  function Min(a: int, b: int): int {
    if a < b then a else b
  }

  /** `usize::checked_add` and `usize::checked_mul`: the sum or product unless it overflows. */
  function Checked(n: nat): Option<nat> {
    if n <= USIZE_MAX then Some(n) else None
  }

  /** The same letter, or the upper and the lower case of one. */
  predicate SameLetter(x: byte, y: byte) {
    x == y || ('A' as int <= x <= 'Z' as int && y == x + 32) || ('A' as int <= y <= 'Z' as int && x == y + 32)
  }

  lemma SliceOfSlice<T>(s: seq<T>, a: nat, b: nat, c: nat, d: nat)
    requires a <= b <= |s| && c <= d <= b - a
    ensures s[a..b][c..d] == s[a + c..a + d]
  {
    assert |s[a..b][c..d]| == |s[a + c..a + d]|;
    assert forall k :: 0 <= k < d - c ==> s[a..b][c..d][k] == s[a + c + k] == s[a + c..a + d][k];
  }
}
