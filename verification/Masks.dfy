/**
 Unsigned bit masks as natural numbers, with the few machine operations the
 cron compiler uses.  A 64-bit word is a number below 2^64; shifting 1 by 64 or
 more yields 0, as it does in Go.
 */
module Masks {

  function Pow2(k: nat): (p: nat)
    ensures p >= 1
  {
    if k == 0 then 1 else 2 * Pow2(k - 1)
  }

  /** mask & (1 << v) != 0 */
  predicate Bit(mask: nat, v: nat) {
    if v == 0 then mask % 2 == 1 else Bit(mask / 2, v - 1)
  }

  /** uint64(1) << amount, where amount is a uint64. */
  function Shl1(amount: nat): nat {
    if amount < 64 then Pow2(amount) else 0
  }

  function Or(a: nat, b: nat): nat {
    if a == 0 then b
    else (if a % 2 == 1 || b % 2 == 1 then 1 else 0) + 2 * Or(a / 2, b / 2)
  }

  /** a &^ b */
  function AndNot(a: nat, b: nat): nat {
    if a == 0 then 0
    else (if a % 2 == 1 && b % 2 == 0 then 1 else 0) + 2 * AndNot(a / 2, b / 2)
  }

  /** Conversion to an unsigned type of the given width. */
  function Narrow(mask: nat, width: nat): nat {
    mask % Pow2(width)
  }

  lemma {:induction false} BitOfZero(v: nat)
    ensures !Bit(0, v)
  {
    if v > 0 {
      BitOfZero(v - 1);
    }
  }

  lemma {:induction false} BitOfPow2(k: nat, v: nat)
    ensures Bit(Pow2(k), v) <==> v == k
  {
    if k == 0 {
      if v > 0 {
        BitOfZero(v - 1);
      }
    } else if v > 0 {
      BitOfPow2(k - 1, v - 1);
    }
  }

  lemma {:induction false} BitOfOr(a: nat, b: nat, v: nat)
    ensures Bit(Or(a, b), v) <==> Bit(a, v) || Bit(b, v)
    decreases v
  {
    if a == 0 {
      BitOfZero(v);
    } else {
      var low := if a % 2 == 1 || b % 2 == 1 then 1 else 0;
      assert Or(a, b) / 2 == Or(a / 2, b / 2) && Or(a, b) % 2 == low;
      if v > 0 {
        BitOfOr(a / 2, b / 2, v - 1);
      }
    }
  }

  lemma {:induction false} BitOfAndNot(a: nat, b: nat, v: nat)
    ensures Bit(AndNot(a, b), v) <==> Bit(a, v) && !Bit(b, v)
    decreases v
  {
    if a == 0 {
      BitOfZero(v);
    } else {
      var low := if a % 2 == 1 && b % 2 == 0 then 1 else 0;
      assert AndNot(a, b) / 2 == AndNot(a / 2, b / 2) && AndNot(a, b) % 2 == low;
      if v > 0 {
        BitOfAndNot(a / 2, b / 2, v - 1);
      }
    }
  }

  ghost predicate Below(mask: nat, width: nat) {
    forall v: nat | Bit(mask, v) :: v < width
  }

  /** A mask whose bits all lie below the width is unchanged by narrowing. */
  lemma NarrowKeeps(mask: nat, width: nat)
    requires Below(mask, width)
    ensures Narrow(mask, width) == mask
  {
    BelowIsSmall(mask, width);
    SmallMod(mask, Pow2(width));
  }

  lemma SmallMod(a: nat, n: nat)
    requires a < n
    ensures a % n == a
  {
  }

  lemma {:induction false} BelowIsSmall(mask: nat, width: nat)
    requires Below(mask, width)
    ensures mask < Pow2(width)
    decreases width
  {
    if width == 0 {
      NoBitsIsZero(mask);
    } else {
      BelowHalf(mask, width);
      BelowIsSmall(mask / 2, width - 1);
    }
  }

  lemma BelowHalf(mask: nat, width: nat)
    requires width > 0 && Below(mask, width)
    ensures Below(mask / 2, width - 1)
  {
    forall v: nat | Bit(mask / 2, v)
      ensures v < width - 1
    {
      assert Bit(mask, v + 1);
    }
  }

  lemma {:induction false} NoBitsIsZero(mask: nat)
    requires forall v: nat :: !Bit(mask, v)
    ensures mask == 0
  {
    if mask != 0 {
      assert !Bit(mask, 0);
      forall v: nat
        ensures !Bit(mask / 2, v)
      {
        assert !Bit(mask, v + 1);
      }
      NoBitsIsZero(mask / 2);
    }
  }

  /** The least bit set, for a mask that is not zero. */
  function Lowest(mask: nat): (v: nat)
    requires mask != 0
    ensures Bit(mask, v)
    ensures forall w: nat | w < v :: !Bit(mask, w)
  {
    if mask % 2 == 1 then 0
    else
      var r := Lowest(mask / 2);
      assert forall w: nat | 0 < w < r + 1 :: Bit(mask, w) == Bit(mask / 2, w - 1);
      r + 1
  }

  function Highest(mask: nat): (v: nat)
    requires mask != 0
    ensures Bit(mask, v)
    ensures forall w: nat | Bit(mask, w) :: w <= v
  {
    if mask == 1 then
      assert forall w: nat | w > 0 :: !Bit(mask, w) by {
        forall w: nat | w > 0 ensures !Bit(mask, w) { BitOfZero(w - 1); }
      }
      0
    else
      var r := Highest(mask / 2);
      assert forall w: nat | Bit(mask, w) && w > 0 :: Bit(mask / 2, w - 1);
      r + 1
  }
}
