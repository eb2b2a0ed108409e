/**
 * `calc_bits_of` and the placement-group masks `calc_pg_masks` derives from
 * it (src/kernel/osdmap.c:17-36).
 */
module Masks {
  import opened Wire

  function Pow2(n: nat): (r: nat)
    ensures r >= 1
  {
    if n == 0 then 1 else 2 * Pow2(n - 1)
  }

  /** The number of significant bits of `t`: 0 for 0, never more than `t`. */
  function BitsOf(t: nat): (r: nat)
    ensures r == 0 <==> t == 0
    ensures r <= t
  {
    if t == 0 then 0 else 1 + BitsOf(t / 2)
  }

  /** calc_bits_of: shift right until nothing is left, counting the shifts. */
  method CalcBitsOf(t: u32) returns (b: nat)
    ensures b == BitsOf(t)
  {
    b := 0;
    var x: nat := t;
    while x != 0
      invariant b + BitsOf(x) == BitsOf(t)
      decreases x
    {
      x := x / 2;
      b := b + 1;
    }
  }

  /** `BitsOf(t)` is the `b` with 2^(b-1) <= t < 2^b. */
  lemma {:induction false} BitsOfBounds(t: nat)
    ensures t == 0 ==> BitsOf(t) == 0
    ensures t > 0 ==> BitsOf(t) >= 1 && Pow2(BitsOf(t) - 1) <= t < Pow2(BitsOf(t))
  {
    if t > 0 {
      BitsOfBounds(t / 2);
    }
  }

  /** ... and the only one. */
  lemma {:induction false} BitsOfUnique(t: nat, b: nat)
    requires b >= 1 && Pow2(b - 1) <= t < Pow2(b)
    ensures BitsOf(t) == b
  {
    if b > 1 {
      BitsOfUnique(t / 2, b - 1);
    }
  }

  lemma {:induction false} Pow2Add(m: nat, n: nat)
    ensures Pow2(m + n) == Pow2(m) * Pow2(n)
    decreases n
  {
    if n > 0 {
      Pow2Add(m, n - 1);
    }
  }

  lemma Pow2Is32()
    ensures Pow2(32) == TWO32
  {
    assert Pow2(8) == 0x100;
    Pow2Add(8, 8);
    Pow2Add(16, 16);
  }

  lemma {:induction false} Pow2Monotone(m: nat, n: nat)
    requires m <= n
    ensures Pow2(m) <= Pow2(n)
    decreases n
  {
    if m < n {
      Pow2Monotone(m, n - 1);
    }
  }

  /** A 32-bit value has at most 32 significant bits. */
  lemma BitsOfU32(t: u32)
    ensures BitsOf(t) <= 32
  {
    BitsOfBounds(t);
    if BitsOf(t) > 32 {
      Pow2Monotone(32, BitsOf(t) - 1);
      Pow2Is32();
    }
  }

  lemma BitsOfExamples()
    ensures BitsOf(0) == 0 && BitsOf(1) == 1 && BitsOf(7) == 3 && BitsOf(8) == 4
  {
  }

  /** `foo - 1` in 32-bit unsigned arithmetic: 0 - 1 wraps to 2^32 - 1. */
  function Pred32(num: u32): u32 {
    if num == 0 then TWO32 - 1 else num - 1
  }

  /**
   * The mask `calc_pg_masks` stores for a count `num`:
   * `(1 << calc_bits_of(num - 1)) - 1`.
   */
  function PgMask(num: u32): (r: nat)
    ensures r >= Pred32(num)
  {
    BitsOfBounds(Pred32(num));
    Pow2(BitsOf(Pred32(num))) - 1
  }

  /**
   * The mask is the smallest value of the form 2^n - 1 that is at least
   * `num - 1`, so every index in 0 .. num - 1 survives masking; it fits in
   * 32 bits.
   */
  lemma PgMaskSmallest(num: u32, n: nat)
    ensures PgMask(num) >= Pred32(num)
    ensures PgMask(num) < TWO32
    ensures Pow2(n) - 1 >= Pred32(num) ==> Pow2(n) - 1 >= PgMask(num)
  {
    var t := Pred32(num);
    BitsOfBounds(t);
    BitsOfU32(t);
    Pow2Monotone(BitsOf(t), 32);
    Pow2Is32();
    if Pow2(n) - 1 >= t && t > 0 {
      if n < BitsOf(t) {
        Pow2Monotone(n, BitsOf(t) - 1);
      } else {
        Pow2Monotone(BitsOf(t), n);
      }
    }
  }

  lemma PgMaskExamples()
    ensures PgMask(8) == 7 && PgMask(1) == 0 && PgMask(9) == 15
  {
    BitsOfExamples();
    assert BitsOf(8) == 4;
  }
}
