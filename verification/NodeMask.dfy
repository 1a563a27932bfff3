/** Node sets as the planner stores them: a bit mask in a non-negative integer. */
module NodeMask {
  import opened Basics

  /** `(mask & (1 << u)) != 0` */
  predicate HasBit(mask: nat, u: nat) {
    if u == 0 then mask % 2 == 1 else HasBit(mask / 2, u - 1)
  }

  /** `mask &^ (1 << u)` */
  function ClearBit(mask: nat, u: nat): (r: nat)
    ensures r <= mask
  {
    if HasBit(mask, u) then BitAtMostMask(mask, u); mask - Pow2(u) else mask
  }

  lemma {:induction false} BitAtMostMask(mask: nat, u: nat)
    requires HasBit(mask, u)
    ensures Pow2(u) <= mask
  {
    if u != 0 {
      BitAtMostMask(mask / 2, u - 1);
    }
  }

  /** Setting a clear bit adds exactly that bit. */
  lemma {:induction false} SetBit(mask: nat, u: nat, v: nat)
    requires !HasBit(mask, u)
    ensures HasBit(mask + Pow2(u), v) <==> v == u || HasBit(mask, v)
  {
    if u == 0 {
      assert (mask + 1) / 2 == mask / 2;
    } else {
      assert (mask + 2 * Pow2(u - 1)) / 2 == mask / 2 + Pow2(u - 1);
      if v != 0 {
        SetBit(mask / 2, u - 1, v - 1);
      }
    }
  }

  /** Clearing a set bit removes exactly that bit. */
  lemma {:induction false} ClearBitRemoves(mask: nat, u: nat)
    requires HasBit(mask, u)
    ensures ClearBit(mask, u) + Pow2(u) == mask
    ensures !HasBit(ClearBit(mask, u), u)
  {
    BitAtMostMask(mask, u);
    if u != 0 {
      BitAtMostMask(mask / 2, u - 1);
      ClearBitRemoves(mask / 2, u - 1);
      assert (mask - 2 * Pow2(u - 1)) / 2 == mask / 2 - Pow2(u - 1);
    }
  }

  /** A mask over `n` nodes stays a mask over `n` nodes when a clear bit is set. */
  lemma {:induction false} SetBitBound(mask: nat, u: nat, n: nat)
    requires mask < Pow2(n) && u < n && !HasBit(mask, u)
    ensures mask + Pow2(u) < Pow2(n)
  {
    assert Pow2(n) == 2 * Pow2(n - 1);
    if u != 0 {
      assert Pow2(u) == 2 * Pow2(u - 1);
      SetBitBound(mask / 2, u - 1, n - 1);
    }
  }

  lemma {:induction false} NoBitOfZero(u: nat)
    ensures !HasBit(0, u)
  {
    if u != 0 {
      NoBitOfZero(u - 1);
    }
  }

  lemma {:induction false} Pow2Bound(u: nat, n: nat)
    requires u < n
    ensures Pow2(u) < Pow2(n)
  {
    NoBitOfZero(u);
    SetBitBound(0, u, n);
  }
}
