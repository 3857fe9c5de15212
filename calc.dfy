/** The calc helpers of mpc_service.cpp: a 64-bit running sum reduced
    modulo P, and the little-endian bit decomposition of a share. */
module Calc {
  import opened Arith
  import opened Modulus
  import opened Field

  /** The exact sum of a sequence of shares. */
  ghost function Total(s: seq<nat>): nat
  {
    if |s| == 0 then 0 else Total(s[..|s| - 1]) + s[|s| - 1]
  }

  /** Every entry is 0 or 1. */
  predicate IsBits(s: seq<nat>)
  {
    forall i :: 0 <= i < |s| ==> s[i] <= 1
  }

  /** The number whose bits are s, least significant first. */
  ghost function BitsValue(s: seq<nat>): nat
  {
    if |s| == 0 then 0 else BitsValue(s[..|s| - 1]) + Pow2(|s| - 1) * s[|s| - 1]
  }

  /** Powers of two multiply by adding exponents. */
  lemma {:induction false} Pow2Add(a: nat, b: nat)
    ensures Pow2(a + b) == Pow2(a) * Pow2(b)
  {
    if a > 0 {
      Pow2Add(a - 1, b);
      MulAssoc(2, Pow2(a - 1), Pow2(b));
    }
  }

  /** Powers of two grow with the exponent. */
  lemma {:induction false} Pow2Mono(i: nat, j: nat)
    requires i <= j
    ensures Pow2(i) <= Pow2(j)
  {
    if i < j {
      Pow2Mono(i, j - 1);
    }
  }

  // ---------------------------------------------------------------------
  // calc::sum

  /** calc::sum: the running sum is a uint64 that wraps at 2^64, and only
      the final value is reduced modulo P. */
  method Sum(numbers: seq<nat>, init: nat) returns (r: nat)
    requires init < U64
    requires forall i :: 0 <= i < |numbers| ==> numbers[i] < U32
    ensures r == ((init + Total(numbers)) % U64) % P
  {
    var sum := init;
    var i := 0;
    while i < |numbers|
      invariant i <= |numbers|
      invariant sum == (init + Total(numbers[..i])) % U64
    {
      assert numbers[..i + 1][..i] == numbers[..i];
      ModOfMod(init + Total(numbers[..i]), U64);
      ModAdd(init + Total(numbers[..i]), numbers[i], U64);
      ModAdd(sum, numbers[i], U64);
      sum := (sum + numbers[i]) % U64;
      i := i + 1;
    }
    assert numbers[..i] == numbers;
    r := sum % P;
  }

  /** Every share is below 2^32, so the total is below |s| * 2^32. */
  lemma {:induction false} TotalBound(s: seq<nat>)
    requires forall i :: 0 <= i < |s| ==> s[i] < U32
    ensures Total(s) <= |s| * (U32 - 1)
  {
    if |s| > 0 {
      TotalBound(s[..|s| - 1]);
    }
  }

  /** With fewer than 2^32 shares and an initial value below 2^32 the
      uint64 sum never wraps, and calc::sum is the exact sum modulo P. */
  lemma SumNoWrap(numbers: seq<nat>, init: nat)
    requires init < U32 && |numbers| < U32
    requires forall i :: 0 <= i < |numbers| ==> numbers[i] < U32
    ensures ((init + Total(numbers)) % U64) % P == (init + Total(numbers)) % P
  {
    TotalBound(numbers);
    MulLe(|numbers|, U32 - 1, U32 - 1);
    SmallMod(init + Total(numbers), U64);
  }

  /** The total of bits counts the ones: it is at most their number, and it
      is zero exactly when no entry is 1. */
  lemma {:induction false} TotalOfBits(s: seq<nat>)
    requires IsBits(s)
    ensures Total(s) <= |s|
    ensures Total(s) == 0 <==> forall i :: 0 <= i < |s| ==> s[i] == 0
  {
    if |s| > 0 {
      var init := s[..|s| - 1];
      assert IsBits(init) by {
        forall i | 0 <= i < |init|
          ensures init[i] <= 1
        {
          assert init[i] == s[i];
        }
      }
      TotalOfBits(init);
      if Total(s) == 0 {
        forall i | 0 <= i < |s|
          ensures s[i] == 0
        {
          if i < |init| {
            assert init[i] == s[i];
          }
        }
      }
    }
  }

  // ---------------------------------------------------------------------
  // calc::to_bits

  /** calc::to_bits: size entries, each 0 or 1, least significant first,
      whose value is the share modulo 2^size. */
  method ToBits(number: nat, size: nat) returns (res: array<nat>)
    ensures fresh(res) && res.Length == size
    ensures IsBits(res[..])
    ensures BitsValue(res[..]) == number % Pow2(size)
  {
    res := new nat[size];
    var n := number;
    var i := 0;
    while i < size
      invariant i <= size
      invariant IsBits(res[..i])
      invariant number == BitsValue(res[..i]) + Pow2(i) * n
      invariant BitsValue(res[..i]) < Pow2(i)
    {
      ghost var done := res[..i];
      res[i] := n % 2;
      assert res[..i + 1] == done + [n % 2];
      ToBitsStep(done, n, number);
      n := n / 2;
      i := i + 1;
    }
    assert res[..] == res[..size];
    DivModUnique(number, Pow2(size), n, BitsValue(res[..]));
  }

  /** One round of to_bits: the low bit of n moves into the bits. */
  lemma ToBitsStep(done: seq<nat>, n: nat, number: nat)
    requires IsBits(done)
    requires number == BitsValue(done) + Pow2(|done|) * n
    requires BitsValue(done) < Pow2(|done|)
    ensures IsBits(done + [n % 2])
    ensures number == BitsValue(done + [n % 2]) + Pow2(|done| + 1) * (n / 2)
    ensures BitsValue(done + [n % 2]) < Pow2(|done| + 1)
  {
    var next := done + [n % 2];
    assert next[..|next| - 1] == done;
    var w := Pow2(|done|);
    assert BitsValue(next) == BitsValue(done) + w * (n % 2);
    assert n == 2 * (n / 2) + n % 2;
    LeftDistrib(w, 2 * (n / 2), n % 2);
    MulAssoc(w, 2, n / 2);
    assert Pow2(|done| + 1) == 2 * w;
    assert w * 2 == 2 * w;
    if n % 2 == 1 {
      assert w * (n % 2) == w;
    } else {
      assert w * (n % 2) == 0;
    }
  }

  /** Bits below position k make a value below 2^k. */
  lemma {:induction false} BitsBound(s: seq<nat>)
    requires IsBits(s)
    ensures BitsValue(s) < Pow2(|s|)
  {
    if |s| > 0 {
      var init := s[..|s| - 1];
      assert IsBits(init) by {
        forall i | 0 <= i < |init|
          ensures init[i] <= 1
        {
          assert init[i] == s[i];
        }
      }
      BitsBound(init);
      MulLe(s[|s| - 1], 1, Pow2(|s| - 1));
    }
  }

  /** The bits of a value are unique: two bit sequences of one length with
      the same value are equal, so to_bits's result is determined. */
  lemma {:induction false} BitsUnique(s: seq<nat>, t: seq<nat>)
    requires IsBits(s) && IsBits(t) && |s| == |t|
    requires BitsValue(s) == BitsValue(t)
    ensures s == t
  {
    if |s| > 0 {
      var k := |s| - 1;
      var s', t' := s[..k], t[..k];
      assert IsBits(s') by {
        forall i | 0 <= i < k
          ensures s'[i] <= 1
        {
          assert s'[i] == s[i];
        }
      }
      assert IsBits(t') by {
        forall i | 0 <= i < k
          ensures t'[i] <= 1
        {
          assert t'[i] == t[i];
        }
      }
      TopBit(s);
      TopBit(t);
      BitsUnique(s', t');
      assert s == s' + [s[k]] && t == t' + [t[k]];
    }
  }

  /** The top bit of a bit sequence is clear exactly when its value is below
      the top bit's weight. */
  lemma TopBit(s: seq<nat>)
    requires IsBits(s) && |s| > 0
    ensures s[|s| - 1] == 0 <==> BitsValue(s) < Pow2(|s| - 1)
    ensures BitsValue(s[..|s| - 1]) == BitsValue(s) - Pow2(|s| - 1) * s[|s| - 1]
  {
    var k := |s| - 1;
    var init := s[..k];
    assert IsBits(init) by {
      forall i | 0 <= i < k
        ensures init[i] <= 1
      {
        assert init[i] == s[i];
      }
    }
    BitsBound(init);
    TopDigit(BitsValue(init), Pow2(k), s[k], BitsValue(s));
  }

  /** A value v + w b with v below w and the digit b a bit is below w
      exactly when b is 0. */
  lemma TopDigit(v: nat, w: nat, b: nat, total: nat)
    requires v < w && b <= 1 && total == v + w * b
    ensures b == 0 <==> total < w
    ensures v == total - w * b
  {
    if b == 1 {
      assert w * b == w;
    }
  }

  /** The parity of a value is its first bit. */
  lemma {:induction false} BitsParity(s: seq<nat>)
    requires IsBits(s) && |s| >= 1
    ensures BitsValue(s) % 2 == s[0]
  {
    var k := |s| - 1;
    if k > 0 {
      var init := s[..k];
      assert IsBits(init) by {
        forall i | 0 <= i < k
          ensures init[i] <= 1
        {
          assert init[i] == s[i];
        }
      }
      BitsParity(init);
      assert Pow2(k) == 2 * Pow2(k - 1);
      MulAssoc(2, Pow2(k - 1), s[k]);
      ModMultipleAdd(Pow2(k - 1) * s[k], BitsValue(init), 2);
    }
  }
}
