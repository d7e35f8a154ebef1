/** Integers bit by bit: `^`, `&`, `|`, `!` and the shifts of machine integers. */
module Bits {
  import opened Base

  datatype BitOp = BitXor | BitAnd | BitOr

  function Pow2(k: nat): (p: nat)
    ensures p > 0
  {
    if k == 0 then 1 else 2 * Pow2(k - 1)
  }

  lemma PowersOfTwo()
    ensures Pow2(8) == 256 && Pow2(64) == 0x1_0000_0000_0000_0000
  {
    assert Pow2(4) == 16 && Pow2(8) == 16 * Pow2(4);
    PowerOfSum(8, 8);
    PowerOfSum(16, 16);
    PowerOfSum(32, 32);
  }

  lemma {:induction false} PowerOfSum(a: nat, b: nat)
    ensures Pow2(a + b) == Pow2(a) * Pow2(b)
    decreases a
  {
    if a > 0 { PowerOfSum(a - 1, b); }
  }

  /** The `k`th bit, the least significant first. */
  function BitAt(n: nat, k: nat): nat {
    if k == 0 then n % 2 else BitAt(n / 2, k - 1)
  }

  function OnBits(op: BitOp, a: nat, b: nat): (r: nat)
    requires a < 2 && b < 2
    ensures r < 2
  {
    match op
    case BitXor => if a == b then 0 else 1
    case BitAnd => if a == 1 && b == 1 then 1 else 0
    case BitOr => if a == 1 || b == 1 then 1 else 0
  }

  /** The number of `width` bits whose bits are those of `a` and `b`, combined. */
  function Combine(op: BitOp, a: nat, b: nat, width: nat): (r: nat)
    ensures r < Pow2(width)
    decreases width
  {
    if width == 0 then 0 else OnBits(op, a % 2, b % 2) + 2 * Combine(op, a / 2, b / 2, width - 1)
  }

  lemma {:induction false} CombineBit(op: BitOp, a: nat, b: nat, width: nat, k: nat)
    requires k < width
    ensures BitAt(a, k) < 2 && BitAt(b, k) < 2
    ensures BitAt(Combine(op, a, b, width), k) == OnBits(op, BitAt(a, k), BitAt(b, k))
    decreases width
  {
    if k > 0 { CombineBit(op, a / 2, b / 2, width - 1, k - 1); }
  }

  /** A number below `2^width` is known by its bits. */
  lemma {:induction false} SameBits(a: nat, b: nat, width: nat)
    requires a < Pow2(width) && b < Pow2(width) && forall k: nat :: k < width ==> BitAt(a, k) == BitAt(b, k)
    ensures a == b
    decreases width
  {
    if width > 0 {
      forall k: nat | k < width - 1 ensures BitAt(a / 2, k) == BitAt(b / 2, k) {
        assert BitAt(a, k + 1) == BitAt(b, k + 1);
      }
      SameBits(a / 2, b / 2, width - 1);
      assert BitAt(a, 0) == BitAt(b, 0);
    }
  }
}
