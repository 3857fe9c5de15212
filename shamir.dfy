/** Shamir secret sharing over P (utils.cpp gen_shamir and resolve_shamir):
    a share for party i is the sharing polynomial evaluated at i + 1, and the
    secret comes back as the Lagrange interpolation at 0. */
module Shamir {
  import opened Arith
  import opened Modulus
  import opened Field
  import opened Poly
  import opened Lagrange

  /** The coefficients of the sharing polynomial: the secret first, then the
      random coefficients (drawn by random_value, an input here). */
  function Coefficients(value: nat, randoms: seq<nat>): (c: seq<nat>)
    ensures |c| == |randoms| + 1 && c[0] == value && c[1..] == randoms
  {
    [value] + randoms
  }

  // ---------------------------------------------------------------------
  // gen_shamir

  /** res after the first k rounds of gen_shamir's inner loop at node x:
      the power x_i is kept modulo 2^64 only, and both the product and the
      running sum wrap at 2^64 before the reduction modulo P. */
  ghost function ShareAcc(c: seq<nat>, x: nat, k: nat): nat
    requires k <= |c|
  {
    if k == 0 then 0
    else ((ShareAcc(c, x, k - 1) + (c[k - 1] * (Exp(x, k - 1) % U64)) % U64) % U64) % P
  }

  /** gen_shamir: shares[i] is the as-written accumulation at node i + 1. */
  method GenShamir(value: nat, randoms: seq<nat>, sharesCount: nat, threshold: nat)
    returns (shares: seq<nat>)
    requires value < U32 && 1 <= threshold < 0x8000_0000 && |randoms| == threshold - 1
    requires forall j :: 0 <= j < |randoms| ==> randoms[j] < P
    requires sharesCount < 0x8000_0000
    ensures |shares| == sharesCount
    ensures forall i :: 0 <= i < sharesCount ==>
      shares[i] == ShareAcc(Coefficients(value, randoms), i + 1, threshold)
    ensures threshold <= 2 ==> shares == SharesOf(Coefficients(value, randoms), sharesCount)
  {
    var c := Coefficients(value, randoms);
    shares := [];
    var i := 0;
    while i < sharesCount
      invariant i <= sharesCount && |shares| == i
      invariant forall i' :: 0 <= i' < i ==> shares[i'] == ShareAcc(c, i' + 1, threshold)
    {
      var res: nat := 0;
      var x: nat := i + 1;
      var xi: nat := 1;
      var j := 0;
      while j < threshold
        invariant j <= threshold
        invariant res == ShareAcc(c, x, j)
        invariant xi == Exp(x, j) % U64
      {
        GenStep(c, x, j, res, xi);
        res := ((res + (c[j] * xi) % U64) % U64) % P;
        xi := (xi * x) % U64;
        j := j + 1;
      }
      shares := shares + [res];
      i := i + 1;
    }
    if threshold <= 2 {
      ThresholdTwoShares(value, randoms, sharesCount);
    }
  }

  /** With threshold at most 2 and fewer than 2^31 nodes, the as-written
      accumulation gives exactly the shares of the sharing polynomial. */
  lemma ThresholdTwoShares(value: nat, randoms: seq<nat>, n: nat)
    requires value < U32 && |randoms| <= 1 && n < 0x8000_0000
    requires forall j :: 0 <= j < |randoms| ==> randoms[j] < P
    ensures forall i :: 0 <= i < n ==>
      ShareAcc(Coefficients(value, randoms), i + 1, |randoms| + 1) == SharesOf(Coefficients(value, randoms), n)[i]
  {
    var c := Coefficients(value, randoms);
    forall i | 0 <= i < n
      ensures ShareAcc(c, i + 1, |c|) == SharesOf(c, n)[i]
    {
      NoWrapThresholdTwo(c, i + 1);
      ShareAccIsEval(c, i + 1, |c|);
      assert c[..|c|] == c;
    }
  }

  lemma GenStep(c: seq<nat>, x: nat, j: nat, res: nat, xi: nat)
    requires j < |c| && res == ShareAcc(c, x, j) && xi == Exp(x, j) % U64
    ensures ((res + (c[j] * xi) % U64) % U64) % P == ShareAcc(c, x, j + 1)
    ensures (xi * x) % U64 == Exp(x, j + 1) % U64
  {
    PowerModStep(x, j, U64);
  }

  /** Keeping a power reduced modulo m and multiplying by x gives the next
      power modulo m. */
  lemma PowerModStep(x: nat, j: nat, m: nat)
    requires m > 0
    ensures ((Exp(x, j) % m) * x) % m == Exp(x, j + 1) % m
  {
    ModOfMod(Exp(x, j), m);
    ModMulRight(Exp(x, j) % m, Exp(x, j), x, m);
    assert Exp(x, j + 1) == x * Exp(x, j);
  }

  /** No product c[j] * x^j reaches 2^64 - P, so no 64-bit wrap happens. */
  ghost predicate NoWrap(c: seq<nat>, x: nat)
  {
    forall j :: 0 <= j < |c| ==> c[j] * Exp(x, j) < U64 - P
  }

  lemma ModSmall(x: int, m: int)
    requires 0 <= x < m
    ensures x % m == x
  {
    DivModUnique(x, m, 0, x);
  }

  /** One accumulation round without wrap-around is exact modulo P. */
  lemma NoWrapStep(acc: nat, prev: int, cj: nat, e: nat)
    requires acc == prev % P && cj * e < U64 - P
    ensures ((acc + (cj * (e % U64)) % U64) % U64) % P == (prev + cj * e) % P
  {
    if cj > 0 {
      MulLe(1, cj, e);
      ModSmall(e, U64);
    }
    ModSmall(cj * e, U64);
    ModSmall(acc + cj * e, U64);
    ModOfMod(prev, P);
    ModAdd(prev, cj * e, P);
    ModAdd(acc, cj * e, P);
  }

  /** Without wrap-around the as-written share is the polynomial's value. */
  lemma {:induction false} ShareAccIsEval(c: seq<nat>, x: nat, k: nat)
    requires k <= |c| && NoWrap(c, x)
    ensures ShareAcc(c, x, k) == Eval(c[..k], x) % P
  {
    if k > 0 {
      ShareAccIsEval(c, x, k - 1);
      var e := Exp(x, k - 1);
      ExpNonneg(x, k - 1);
      NoWrapStep(ShareAcc(c, x, k - 1), Eval(c[..k - 1], x), c[k - 1], e);
      assert c[..k] == c[..k - 1] + [c[k - 1]];
      EvalSnoc(c[..k - 1], c[k - 1], x);
    }
  }

  /** With threshold at most 2 (the deployed t = 2) and nodes up to 2^31, no
      wrap-around can happen. */
  lemma NoWrapThresholdTwo(c: seq<nat>, x: nat)
    requires |c| <= 2 && x <= 0x8000_0000
    requires forall j :: 0 <= j < |c| ==> c[j] < U32
    ensures NoWrap(c, x)
  {
    assert Exp(x, 0) == 1;
    assert Exp(x, 1) == x;
    if |c| == 2 {
      MulBound(c[1], x, U32, 0x8000_0001);
    }
  }

  /** With threshold 3 and 2^17 parties the product c[2] * x^2 wraps at
      2^64, and the share at node 2^17 differs from the polynomial value. */
  lemma ShareWrapsAtLargeNode()
    ensures !NoWrap([0, 0, P - 1], 131072)
    ensures ShareAcc([0, 0, P - 1], 131072, 3) == 2147483635
    ensures Eval([0, 0, P - 1], 131072) % P == 2147483639
  {
    var c: seq<nat> := [0, 0, P - 1];
    var x := 131072;
    assert Exp(x, 0) == 1;
    assert Exp(x, 1) == x;
    assert Exp(x, 2) == 17179869184;
    assert c[2] * Exp(x, 2) == 36893488113059364864;
    assert ShareAcc(c, x, 1) == 0;
    assert ShareAcc(c, x, 2) == 0;
    assert ShareAcc(c, x, 3) == ((0 + (2147483646 * 17179869184) % U64) % U64) % P;
    assert c[1..] == [0, P - 1] && c[1..][1..] == [P - 1] && c[1..][1..][1..] == [];
    assert Eval(c[1..][1..], x) == P - 1;
    assert Eval(c[1..], x) == x * (P - 1);
    assert Eval(c, x) == x * (x * (P - 1));
  }

  /** gen_shamir with the power x_i reduced modulo P after every step: every
      share is the sharing polynomial's value at its node, for every
      threshold and party count. */
  method GenShamirReduced(value: nat, randoms: seq<nat>, sharesCount: nat, threshold: nat)
    returns (shares: seq<nat>)
    requires value < U32 && 1 <= threshold < 0x8000_0000 && |randoms| == threshold - 1
    requires forall j :: 0 <= j < |randoms| ==> randoms[j] < P
    requires sharesCount < 0x8000_0000
    ensures |shares| == sharesCount
    ensures forall i :: 0 <= i < sharesCount ==>
      shares[i] < P && shares[i] == Eval(Coefficients(value, randoms), i + 1) % P
  {
    var c := Coefficients(value, randoms);
    shares := [];
    var i := 0;
    while i < sharesCount
      invariant i <= sharesCount && |shares| == i
      invariant forall i' :: 0 <= i' < i ==> shares[i'] == Eval(c, i' + 1) % P
    {
      var res: nat := 0;
      var x: nat := i + 1;
      var xi: nat := 1;
      var j := 0;
      while j < threshold
        invariant j <= threshold
        invariant res == Eval(c[..j], x) % P
        invariant xi == Exp(x, j) % P
      {
        ReducedStep(c, x, j, res, xi);
        res := (res + c[j] * xi) % P;
        xi := (xi * x) % P;
        j := j + 1;
      }
      assert c[..threshold] == c;
      shares := shares + [res];
      i := i + 1;
    }
  }

  lemma ReducedStep(c: seq<nat>, x: nat, j: nat, res: nat, xi: nat)
    requires j < |c| && res == Eval(c[..j], x) % P && xi == Exp(x, j) % P
    requires c[j] < U32
    ensures (res + c[j] * xi) % P == Eval(c[..j + 1], x) % P
    ensures res + c[j] * xi < U64
    ensures (xi * x) % P == Exp(x, j + 1) % P
  {
    PowerModStep(x, j, P);
    MulBound(c[j], xi, U32, P);
    PrefixEval(c, j, x);
    AddTermMod(Eval(c[..j], x), res, c[j], Exp(x, j), xi);
  }

  /** The prefix of length j + 1 adds the term c[j] * x^j. */
  lemma PrefixEval(c: seq<int>, j: nat, x: int)
    requires j < |c|
    ensures Eval(c[..j + 1], x) == Eval(c[..j], x) + c[j] * Exp(x, j)
  {
    assert c[..j + 1] == c[..j] + [c[j]];
    EvalSnoc(c[..j], c[j], x);
  }

  /** Reduced operands give the reduced sum. */
  lemma AddTermMod(a: int, res: int, k: int, e: int, xi: int)
    requires res == a % P && xi == e % P
    ensures (res + k * xi) % P == (a + k * e) % P
  {
    ModOfMod(e, P);
    ModMulLeft(k, xi, e, P);
    ModAdd(res, k * xi, P);
    ModAdd(a, k * e, P);
    ModOfMod(a, P);
  }

  // ---------------------------------------------------------------------
  // resolve_shamir

  /** The nodes 1..j other than i + 1, in increasing order. */
  function Others(i: nat, j: nat): (r: seq<int>)
    ensures |r| == if i < j then j - 1 else j
  {
    if j == 0 then [] else Others(i, j - 1) + (if j - 1 == i then [] else [j])
  }

  /** The numerator of resolve_shamir: the product of the other nodes. */
  function NumUpTo(i: nat, j: nat): int
  {
    if j == 0 then 1 else NumUpTo(i, j - 1) * (if j - 1 == i then 1 else j)
  }

  /** The denominator of resolve_shamir: the product of (j - i) over j != i. */
  function DenUpTo(i: nat, j: nat): int
  {
    if j == 0 then 1 else DenUpTo(i, j - 1) * (if j - 1 == i then 1 else j - 1 - i)
  }

  lemma {:induction false} OthersRange(i: nat, j: nat)
    ensures forall t :: 0 <= t < |Others(i, j)| ==> 1 <= Others(i, j)[t] <= j && Others(i, j)[t] != i + 1
  {
    if j > 0 {
      OthersRange(i, j - 1);
    }
  }

  /** Node r + 1 (r != i) sits at a known place among the others. */
  lemma {:induction false} OthersAt(i: nat, j: nat, r: nat)
    requires r < j && r != i
    ensures var t := if r < i then r else r - 1; t < |Others(i, j)| && Others(i, j)[t] == r + 1
  {
    if r < j - 1 {
      OthersAt(i, j - 1, r);
    }
  }

  /** Every node of Others(i, j) is a root of its product. */
  lemma OthersVanish(i: nat, j: nat, r: nat)
    requires r < j && r != i
    ensures NodeProd(Others(i, j), r + 1) == 0
  {
    OthersAt(i, j, r);
    NodeProdRoot(Others(i, j), if r < i then r else r - 1);
  }

  lemma OthersVanishAt(i: nat, j: nat, z: nat)
    requires 1 <= z <= j && z != i + 1
    ensures NodeProd(Others(i, j), z) == 0
  {
    OthersVanish(i, j, z - 1);
  }

  /** The product of (k - i) over k != i stays non-zero modulo P. */
  lemma {:induction false} DenNonzero(i: nat, j: nat)
    requires j <= P && i < P
    ensures DenUpTo(i, j) % P != 0
  {
    if j > 0 {
      DenNonzero(i, j - 1);
      if j - 1 != i {
        var d: int := j - 1 - i;
        SmallNonzero(d);
        if (DenUpTo(i, j - 1) * d) % P == 0 {
          NoZeroDivisors(DenUpTo(i, j - 1), d);
          assert false;
        }
      }
    }
  }

  /** A non-zero difference of two nodes in 1..P is non-zero modulo P. */
  lemma SmallNonzero(d: int)
    requires d != 0 && d < P && 0 < d + P
    ensures d % P != 0
  {
  }

  /** The weight of share i: the Lagrange basis polynomial at 0. */
  ghost function Weight(n: nat, i: nat): nat
    requires i < n <= P
  {
    DenNonzero(i, n);
    (NumUpTo(i, n) * Inv(DenUpTo(i, n))) % P
  }

  ghost function WeightFn(n: nat): nat -> int
    requires n <= P
  {
    (i: nat) => if i < n then Weight(n, i) else 0
  }

  /** The value resolve_shamir returns: the weighted sum of the shares. */
  ghost function Interpolated(shares: seq<nat>): nat
    requires |shares| <= P
  {
    Sum(|shares|, (i: nat) => if i < |shares| then (Weight(|shares|, i) * shares[i]) % P else 0) % P
  }

  /** resolve_shamir: Lagrange interpolation at 0 on the nodes 1..n. The
      running sum stays below n * P, so it never wraps at 2^64. */
  method ResolveShamir(shares: seq<nat>) returns (r: nat)
    requires |shares| <= P
    requires forall i :: 0 <= i < |shares| ==> shares[i] < U32
    ensures r == Interpolated(shares)
  {
    var n := |shares|;
    ghost var term := (i: nat) => if i < n then (Weight(n, i) * shares[i]) % P else 0;
    var sum: nat := 0;
    var i := 0;
    while i < n
      invariant i <= n
      invariant sum == Sum(i, term) && sum <= i * P
    {
      var numerator, denominator := BasisRatio(n, i);
      DenNonzero(i, n);
      var inv := ModInverse(denominator);
      WeightStep(n, i, numerator, denominator, inv);
      var li := (numerator * inv) % P;
      MulBound(li, shares[i], P, U32);
      sum := sum + (li * shares[i]) % P;
      i := i + 1;
    }
    r := sum % P;
  }

  /** The inner loop of resolve_shamir for share i: the numerator and the
      denominator of the i-th Lagrange basis polynomial at 0, both kept
      small enough that their products never wrap at 2^64. */
  method BasisRatio(n: nat, i: nat) returns (numerator: nat, denominator: nat)
    requires i < n <= P
    ensures numerator <= U32 && numerator % P == NumUpTo(i, n) % P
    ensures denominator < P && denominator % P == DenUpTo(i, n) % P
  {
    numerator, denominator := 1, 1;
    var j := 0;
    while j < n
      invariant j <= n
      invariant numerator <= U32 && numerator % P == NumUpTo(i, j) % P
      invariant denominator < P && denominator % P == DenUpTo(i, j) % P
    {
      if i != j {
        numerator := NumeratorTimes(i, j, numerator);
        denominator := DenominatorTimes(i, j, denominator);
      }
      j := j + 1;
    }
  }

  /** One factor (j + 1) of the numerator, reduced once it exceeds 2^32. */
  method NumeratorTimes(i: nat, j: nat, numerator: nat) returns (r: nat)
    requires i != j && j < P && numerator <= U32 && numerator % P == NumUpTo(i, j) % P
    ensures r <= U32 && r % P == NumUpTo(i, j + 1) % P
  {
    NumeratorStep(i, j, numerator);
    r := numerator * (j + 1);
    if r > U32 {
      r := r % P;
    }
  }

  /** One factor (j - i) mod p of the denominator, reduced. */
  method DenominatorTimes(i: nat, j: nat, denominator: nat) returns (r: nat)
    requires i != j && i < P && denominator < P && denominator % P == DenUpTo(i, j) % P
    ensures r < P && r % P == DenUpTo(i, j + 1) % P
  {
    DenominatorStep(i, j, denominator);
    r := denominator * ((P + j - i) % P);
    r := r % P;
  }

  lemma NumeratorStep(i: nat, j: nat, numerator: nat)
    requires i != j && j < P && numerator <= U32 && numerator % P == NumUpTo(i, j) % P
    ensures 0 <= numerator * (j + 1) < U64
    ensures var v := numerator * (j + 1); var v' := if v > U32 then v % P else v;
      v' <= U32 && v' % P == NumUpTo(i, j + 1) % P
  {
    var v := numerator * (j + 1);
    MulBound(numerator, j + 1, U32 + 1, P + 1);
    ModMulRight(numerator, NumUpTo(i, j), j + 1, P);
    ModOfMod(v, P);
  }

  lemma DenominatorStep(i: nat, j: nat, denominator: nat)
    requires i != j && i < P && denominator < P && denominator % P == DenUpTo(i, j) % P
    ensures 0 <= denominator * ((P + j - i) % P) < U64
    ensures (denominator * ((P + j - i) % P)) % P == DenUpTo(i, j + 1) % P
  {
    MulBound(denominator, (P + j - i) % P, P, P);
    ModMul(denominator, (P + j - i) % P, P);
    ModOfMod(P + j - i, P);
    ModMultipleAdd(1, j - i, P);
    ModMul(DenUpTo(i, j), j - i, P);
  }

  lemma WeightStep(n: nat, i: nat, numerator: nat, denominator: nat, inv: nat)
    requires i < n <= P && denominator < P
    requires numerator % P == NumUpTo(i, n) % P && denominator % P == DenUpTo(i, n) % P
    requires DenUpTo(i, n) % P != 0
    requires denominator != 0 ==> inv < P && (denominator * inv) % P == 1
    ensures (numerator * inv) % P == Weight(n, i)
  {
    var num, den := NumUpTo(i, n), DenUpTo(i, n);
    assert denominator != 0;
    InvUnique(denominator, inv);
    SmallMod(denominator, P);
    assert denominator == den % P;
    InvOfResidue(den);
    assert inv == Inv(den);
    ModMulRight(numerator, num, inv, P);
    assert Weight(n, i) == (num * Inv(den)) % P;
  }

  /** The inverse depends only on the residue. */
  lemma InvOfResidue(x: int)
    requires x % P != 0
    ensures Inv(x % P) == Inv(x)
  {
    var y := Inv(x % P);
    ModMulRight(x % P, x, y, P);
    ModOfMod(x, P);
    InvUnique(x, y);
  }

  // ---------------------------------------------------------------------
  // The weights are the Lagrange basis at 0: the round trip

  ghost function NodeFn(): nat -> int
  {
    (i: nat) => i + 1
  }

  /** The i-th Lagrange basis polynomial (up to its value at node i + 1):
      the product of (z - y) over the other nodes y. */
  ghost function BasisFn(n: nat): nat -> seq<int>
  {
    (i: nat) => ProdLinear(Others(i, n))
  }

  /** The nodes 1..n with the basis polynomials of resolve_shamir form a
      Lagrange basis modulo P. */
  lemma BasisIsBasis(n: nat)
    requires n <= P
    ensures IsBasis(n, NodeFn(), BasisFn(n))
  {
    NodesDistinct(n);
    BasisAtOwnNodes(n);
    BasisAtOtherNodes(n);
  }

  lemma NodesDistinct(n: nat)
    requires n <= P
    ensures forall i: nat, j: nat :: i < j < n ==> (NodeFn()(i) - NodeFn()(j)) % P != 0
  {
    forall i: nat, j: nat | i < j < n
      ensures (NodeFn()(i) - NodeFn()(j)) % P != 0
    {
      assert NodeFn()(i) - NodeFn()(j) == i - j;
      SmallNonzero(i - j);
    }
  }

  lemma BasisAtOwnNodes(n: nat)
    requires n <= P
    ensures forall i: nat :: i < n ==> |BasisFn(n)(i)| <= n && Eval(BasisFn(n)(i), NodeFn()(i)) % P != 0
  {
    forall i: nat | i < n
      ensures |BasisFn(n)(i)| <= n && Eval(BasisFn(n)(i), NodeFn()(i)) % P != 0
    {
      BasisAtOwnNode(n, i);
    }
  }

  lemma BasisAtOtherNodes(n: nat)
    ensures forall i: nat, r: nat :: i < n && r < n && i != r ==> Eval(BasisFn(n)(i), NodeFn()(r)) % P == 0
  {
    forall i: nat, r: nat | i < n && r < n && i != r
      ensures Eval(BasisFn(n)(i), NodeFn()(r)) % P == 0
    {
      BasisAtOtherNode(n, i, r);
    }
  }

  lemma BasisAtOwnNode(n: nat, i: nat)
    requires i < n <= P
    ensures |BasisFn(n)(i)| == n && Eval(BasisFn(n)(i), NodeFn()(i)) % P != 0
  {
    assert NodeFn()(i) == i + 1;
    EvalProdLinear(Others(i, n), i + 1);
    OthersNonzero(i, n);
  }

  /** The product of (i + 1 - y) over the other nodes y in 1..j is non-zero
      modulo P. */
  lemma OthersNonzero(i: nat, j: nat)
    requires i < P && j <= P
    ensures NodeProd(Others(i, j), i + 1) % P != 0
  {
    var os := Others(i, j);
    OthersRange(i, j);
    forall t | 0 <= t < |os|
      ensures (i + 1 - os[t]) % P != 0
    {
      SmallNonzero(i + 1 - os[t]);
    }
    NodeProdNonzero(os, i + 1);
  }

  lemma BasisAtOtherNode(n: nat, i: nat, r: nat)
    requires i < n && r < n && i != r
    ensures Eval(BasisFn(n)(i), NodeFn()(r)) % P == 0
  {
    var os := Others(i, n);
    assert BasisFn(n)(i) == ProdLinear(os);
    assert NodeFn()(r) == r + 1;
    EvalProdLinear(os, r + 1);
    OthersVanish(i, n, r);
  }

  /** The basis polynomial at 0 and at its own node, against the numerator
      and denominator resolve_shamir computes: both ratios agree. */
  lemma {:induction false} CrossRatio(i: nat, j: nat)
    ensures NodeProd(Others(i, j), 0) * DenUpTo(i, j) == NumUpTo(i, j) * NodeProd(Others(i, j), i + 1)
  {
    if j > 0 {
      CrossRatio(i, j - 1);
      var os := Others(i, j - 1);
      if j - 1 != i {
        OthersProdStep(i, j, 0);
        OthersProdStep(i, j, i + 1);
        CrossStep(NodeProd(os, 0), DenUpTo(i, j - 1), NumUpTo(i, j - 1), NodeProd(os, i + 1), j, i,
          NodeProd(Others(i, j), 0), DenUpTo(i, j), NumUpTo(i, j), NodeProd(Others(i, j), i + 1));
      } else {
        assert Others(i, j) == os;
      }
    }
  }

  lemma OthersProdStep(i: nat, j: nat, z: int)
    requires 0 < j && j - 1 != i
    ensures NodeProd(Others(i, j), z) == NodeProd(Others(i, j - 1), z) * (z - j)
  {
    assert Others(i, j) == Others(i, j - 1) + [j];
    NodeProdSnoc(Others(i, j - 1), j, z);
  }

  lemma CrossStep(a: int, d: int, u: int, e: int, j: int, i: int, a': int, d': int, u': int, e': int)
    requires a * d == u * e
    requires a' == a * (0 - j) && d' == d * (j - 1 - i) && u' == u * j && e' == e * (i + 1 - j)
    ensures a' * d' == u' * e'
  {
    var p, q, r := 0 - j, j - 1 - i, i + 1 - j;
    Interchange(a, p, d, q);
    Interchange(u, j, e, r);
    NegateFactor(j, q);
  }

  lemma NegateFactor(j: int, q: int)
    ensures (0 - j) * q == j * (0 - q)
  {
  }

  /** The weights of resolve_shamir select the constant term from the powers
      of the nodes 1..n: sum_i w_i (i + 1)^k == [k == 0] modulo P for k < n,
      the first row of the inverse Vandermonde matrix. */
  lemma WeightsSelectConstant(n: nat)
    requires n <= P
    ensures SelectsConstant(n, WeightFn(n))
  {
    BasisIsBasis(n);
    forall k: nat | k < n
      ensures PowerSum(n, WeightFn(n), k) % P == (if k == 0 then 1 else 0)
    {
      WeightsSelectPower(n, k);
      if k > 0 {
        ExpZero(k);
      }
    }
  }

  lemma WeightsSelectPower(n: nat, k: nat)
    requires k < n <= P && IsBasis(n, NodeFn(), BasisFn(n))
    ensures PowerSum(n, WeightFn(n), k) % P == Exp(0, k) % P
  {
    var x, b, w := NodeFn(), BasisFn(n), WeightFn(n);
    var f, g := (i: nat) => w(i) * Exp(i + 1, k), (i: nat) => PowerWeight(x(i), b(i), k) * Eval(b(i), 0);
    forall i: nat | i < n
      ensures f(i) % P == g(i) % P
    {
      assert w(i) == Weight(n, i) && x(i) == i + 1 && b(i) == BasisFn(n)(i);
      WeightIsBasisRatio(n, i, k);
    }
    SumCong(n, f, g);
    assert PowerSum(n, w, k) == Sum(n, f);
    assert Interp(n, x, b, k, 0) == Sum(n, g);
    InterpolatePower(n, x, b, k, 0);
  }

  lemma WeightIsBasisRatio(n: nat, i: nat, k: nat)
    requires i < n <= P && IsBasis(n, NodeFn(), BasisFn(n))
    ensures (Weight(n, i) * Exp(i + 1, k)) % P
      == (PowerWeight(i + 1, BasisFn(n)(i), k) * Eval(BasisFn(n)(i), 0)) % P
  {
    var os := Others(i, n);
    var b := ProdLinear(os);
    assert BasisFn(n)(i) == b;
    EvalProdLinear(os, 0);
    EvalProdLinear(os, i + 1);
    var b0, e := NodeProd(os, 0), NodeProd(os, i + 1);
    assert NodeFn()(i) == i + 1;
    assert e % P != 0;
    DenNonzero(i, n);
    CrossRatio(i, n);
    var num, den := NumUpTo(i, n), DenUpTo(i, n);
    assert num * e == b0 * den;
    RatioCong(num, den, b0, e);
    // Weight == num / den == b0 / e; multiply both by (i + 1)^k
    var q, ie := Exp(i + 1, k), Inv(e);
    assert Weight(n, i) == (num * Inv(den)) % P;
    ModOfMod(num * Inv(den), P);
    ModMulRight(Weight(n, i), b0 * ie, q, P);
    assert InvOrZero(e) == ie;
    assert PowerWeight(i + 1, b, k) == q * ie;
    Rearrange(b0, ie, q);
  }

  lemma Rearrange(a: int, b: int, c: int)
    ensures (a * b) * c == (c * b) * a
  {
  }

  /** Round trip of resolve_shamir: shares that are the values at 1..n of a
      polynomial with at most n coefficients resolve to its constant term. */
  lemma ResolveRoundTrip(c: seq<int>, shares: seq<nat>)
    requires 1 <= |c| <= |shares| <= P
    requires forall i :: 0 <= i < |shares| ==> shares[i] % P == Eval(c, i + 1) % P
    ensures Interpolated(shares) == c[0] % P
  {
    var n := |shares|;
    var w := WeightFn(n);
    WeightsSelectConstant(n);
    forall i: nat | i < n
      ensures (if i < n then (Weight(n, i) * shares[i]) % P else 0) % P == (w(i) * Eval(c, i + 1)) % P
    {
      ModOfMod(Weight(n, i) * shares[i], P);
      ModMulLeft(Weight(n, i), shares[i], Eval(c, i + 1), P);
    }
    SumCong(n, (i: nat) => if i < n then (Weight(n, i) * shares[i]) % P else 0,
      (i: nat) => w(i) * Eval(c, i + 1));
    Recombine(n, w, c);
  }

  /** The shares of a secret: the sharing polynomial at the nodes 1..n. */
  ghost function SharesOf(c: seq<nat>, n: nat): (s: seq<nat>)
    ensures |s| == n
  {
    seq(n, (i: nat) => Eval(c, i + 1) % P)
  }

  /** resolve_shamir of the shares of a secret (the shares gen_shamir
      computes when its products do not wrap, as GenShamir states for
      threshold at most 2) returns the secret modulo P, whenever
      1 <= threshold <= n <= P. */
  lemma ShamirRoundTrip(value: nat, randoms: seq<nat>, n: nat)
    requires |randoms| + 1 <= n <= P
    ensures Interpolated(SharesOf(Coefficients(value, randoms), n)) == value % P
  {
    var c := Coefficients(value, randoms);
    var s := SharesOf(c, n);
    forall i | 0 <= i < n
      ensures s[i] % P == Eval(c, i + 1) % P
    {
      ModOfMod(Eval(c, i + 1), P);
    }
    ResolveRoundTrip(c, s);
  }

  /** The weights selecting the constant term from the powers of 1..n are
      unique modulo P: any such family agrees with resolve_shamir's. */
  lemma WeightsUnique(n: nat, w: nat -> int)
    requires n <= P && SelectsConstant(n, w)
    ensures forall r: nat :: r < n ==> w(r) % P == Weight(n, r)
  {
    WeightsSelectConstant(n);
    var v := WeightFn(n);
    var d := (r: nat) => w(r) - v(r);
    forall k: nat | k < n
      ensures PowerSum(n, d, k) % P == 0
    {
      DiffAnnihilates(n, w, v, d, k);
    }
    forall s: nat | s < n
      ensures w(s) % P == Weight(n, s)
    {
      WeightAgrees(n, d, s);
      assert d(s) == w(s) - Weight(n, s);
      CongOfDiff(w(s), Weight(n, s), P);
      SmallMod(Weight(n, s), P);
    }
  }

  lemma DiffAnnihilates(n: nat, w: nat -> int, v: nat -> int, d: nat -> int, k: nat)
    requires k < n && SelectsConstant(n, w) && SelectsConstant(n, v)
    requires forall r: nat :: r < n ==> d(r) == w(r) - v(r)
    ensures PowerSum(n, d, k) % P == 0
  {
    PowerSumSub(n, w, v, d, k);
    assert PowerSum(n, w, k) % P == PowerSum(n, v, k) % P;
    DiffOfCong(PowerSum(n, w, k), PowerSum(n, v, k), P);
  }

  lemma WeightAgrees(n: nat, d: nat -> int, s: nat)
    requires s < n <= P
    requires forall k: nat :: k < n ==> PowerSum(n, d, k) % P == 0
    ensures d(s) % P == 0
  {
    var b := BasisFn(n)(s);
    BasisAtOwnNode(n, s);
    Annihilate(n, d, b);
    var f := (r: nat) => d(r) * Eval(b, r + 1);
    forall r: nat | r < n && r != s
      ensures f(r) % P == 0
    {
      BasisAtOtherNode(n, s, r);
      assert NodeFn()(r) == r + 1;
      ModMulLeft(d(r), Eval(b, r + 1), 0, P);
    }
    SumSingle(n, f, s);
    assert NodeFn()(s) == s + 1;
    NoZeroDivisors(d(s), Eval(b, s + 1));
  }
}
