/** mpc_service.h: the number of talliers and the Shamir threshold. */
module Parties {
  /** The number of talliers, D. */
  const D: nat := 3

  /** The threshold t: sharing polynomials have t coefficients. */
  const T: nat := 2

  /** The bit of party i in a 32-bit mask, 1U << i. */
  function Bit(i: nat): bv32
    requires i < 32
  {
    (1 as bv32) << i
  }

  /** (1U << D) - 1U: every party's bit. */
  const Full: bv32 := 7

  /** The n naturals below n. */
  function Below(n: nat): (r: set<nat>)
    ensures forall i: nat :: i in r <==> i < n
    ensures |r| == n
  {
    if n == 0 then {} else
      var r := Below(n - 1);
      assert r * {n - 1} == {};
      r + {n - 1}
  }

  /** All the parties, 0..D - 1. */
  const Everyone: set<nat> := Below(D)

  /** The parties 0..D - 1 whose bits are set in mask. */
  function Missing(mask: bv32): set<nat>
  {
    set i | 0 <= i < D && mask & Bit(i) != 0
  }

  /** A mask within the D party bits is empty exactly when no party is missing. */
  lemma EmptyMask(mask: bv32)
    requires mask & !Full == 0
    ensures mask == 0 <==> Missing(mask) == {}
  {
    if mask != 0 {
      var i: nat := if mask & 1 != 0 then 0 else if mask & 2 != 0 then 1 else 2;
      assert mask & Bit(i) != 0;
      assert i in Missing(mask);
    }
  }

  /** Clearing the bit of a party that is missing removes exactly that party. */
  lemma ClearBit(mask: bv32, i: nat)
    requires i < D && mask & Bit(i) != 0
    ensures Missing(mask ^ Bit(i)) == Missing(mask) - {i}
    ensures (mask ^ Bit(i)) & !Full == mask & !Full
  {
    ClearBitMissing(mask, i);
    ClearBitOutside(mask, i);
  }

  lemma ClearBitMissing(mask: bv32, i: nat)
    requires i < D && mask & Bit(i) != 0
    ensures Missing(mask ^ Bit(i)) == Missing(mask) - {i}
  {
    forall j | 0 <= j < D
      ensures (mask ^ Bit(i)) & Bit(j) != 0 <==> mask & Bit(j) != 0 && j != i
    {
      ClearBitAt(mask, i, j);
    }
  }

  lemma ClearBitOutside(mask: bv32, i: nat)
    requires i < D
    ensures (mask ^ Bit(i)) & !Full == mask & !Full
  {
    BitIs(i);
    XorLow(mask, Bit(i));
  }

  /** Toggling one of the party bits leaves the bits above them alone. */
  lemma XorLow(mask: bv32, b: bv32)
    requires b == 1 || b == 2 || b == 4
    ensures (mask ^ b) & !Full == mask & !Full
  {
  }

  lemma ClearBitAt(mask: bv32, i: nat, j: nat)
    requires i < D && j < D
    ensures (mask ^ Bit(i)) & Bit(j) != 0 <==> (mask & Bit(j) != 0 <==> j != i)
  {
    BitValues();
    var bi, bj := Bit(i), Bit(j);
    if i == j {
      assert bi == bj;
      assert (mask ^ bi) & bi == (mask & bi) ^ bi;
    } else {
      assert bi & bj == 0 by { BitsDiffer(i, j); }
      assert (mask ^ bi) & bj == mask & bj;
    }
  }

  lemma BitIs(i: nat)
    requires i < D
    ensures Bit(i) == 1 || Bit(i) == 2 || Bit(i) == 4
  {
    BitValues();
    if i == 0 {
    } else if i == 1 {
    } else {
      assert i == 2;
    }
  }

  lemma BitValues()
    ensures Bit(0) == 1 && Bit(1) == 2 && Bit(2) == 4
  {
  }

  /** The full mask misses every party. */
  lemma MissingFull()
    ensures Missing(Full) == Everyone
  {
    forall i | 0 <= i < D
      ensures Full & Bit(i) != 0
    {
      BitsDiffer(i, i);
    }
  }

  lemma BitsDiffer(i: nat, j: nat)
    requires i < D && j < D
    ensures Bit(i) & Bit(j) != 0 <==> i == j
    ensures Bit(i) & !Full == 0
  {
  }
}
