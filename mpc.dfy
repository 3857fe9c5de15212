/** The local arithmetic of mpc_service.cpp: the service's precomputed
    values, the product step of multiply, the closing formula of random_bit
    and fan_in_or. The exchange between the parties is left abstract: the
    values the other parties contribute are inputs, and for the plaintext
    statements multiply opens to the field product and resolve to the
    identity. */
module Mpc {
  import opened Arith
  import opened Modulus
  import opened Field
  import opened Poly
  import opened Lagrange
  import opened Shamir
  import opened Vandermonde
  import opened Fan
  import opened Parties
  import opened Calc
  import Exchange

  // ---------------------------------------------------------------------
  // The service: the values the constructor precomputes

  /** mpc_service's constant members: the first row of the inverse
      Vandermonde matrix for D parties, and the number of bits a share is
      decomposed into. block_size only spaces message ids and is not kept. */
  datatype Service = Service(weights: seq<nat>, pBitsSize: nat)

  /** The weights are the recombination weights of the nodes 1..D. */
  ghost predicate ServiceValid(svc: Service)
  {
    |svc.weights| == D && forall i :: 0 <= i < D ==> svc.weights[i] == Weight(D, i)
  }

  /** p_bits_size as the constructor computes it: ceil_log2 takes an
      unsigned short, so P is first truncated to its low 16 bits. */
  function PBitsSize(): (k: nat)
    ensures Pow2(k) >= ToU16(P)
  {
    CeilLog2(ToU16(P))
  }

  /** The truncation leaves 65535, whose ceil_log2 is 16: far fewer than the
      31 bits of a field element. */
  lemma PBitsSizeTruncated()
    ensures ToU16(P) == 65535 && PBitsSize() == 16
  {
    var k := PBitsSize();
    Pow2Landmarks();
    if k > 16 {
      Pow2Mono(16, k - 1);
    }
  }

  /** The bit count is_odd and random_number_bits evidently intend: the
      ceiling of log2 of P itself. */
  const BitsSize: nat := 31

  lemma BitsSizeIsCeilLog2()
    ensures Pow2(BitsSize - 1) < P <= Pow2(BitsSize)
  {
    Pow2Landmarks();
  }

  lemma Pow2Landmarks()
    ensures Pow2(15) == 0x8000 && Pow2(16) == 0x1_0000
    ensures Pow2(30) == 0x4000_0000 && Pow2(31) == 0x8000_0000
  {
    assert Pow2(15) == 0x8000;
    assert Pow2(16) == 0x1_0000;
    Pow2Add(15, 15);
    Pow2Add(16, 15);
  }

  /** The constructor: the Vandermonde row for D parties and, as corrected,
      the full bit count of P (the source truncates it; see PBitsSize). */
  method NewService() returns (svc: Service)
    ensures ServiceValid(svc)
    ensures svc.pBitsSize == BitsSize
  {
    var row := VandermondeRow(D);
    svc := Service(row[..], BitsSize);
  }

  // ---------------------------------------------------------------------
  // multiply

  /** The product of two field elements: what multiply opens to. */
  function Mul(a: nat, b: nat): (r: nat)
    ensures r < P
  {
    (a * b) % P
  }

  /** multiply's first step: the party shares the product of its own two
      shares with a fresh polynomial of T coefficients. For T = 2 and D = 3
      gen_shamir never wraps, so every share is that polynomial's value. */
  method MultiplyShares(a: nat, b: nat, randoms: seq<nat>) returns (h: seq<nat>)
    requires |randoms| == T - 1
    requires forall j :: 0 <= j < |randoms| ==> randoms[j] < P
    ensures |h| == D
    ensures forall i :: 0 <= i < D ==> h[i] == Eval(Coefficients(Mul(a, b), randoms), i + 1) % P
  {
    h := GenShamir(Mul(a, b), randoms, D, T);
    var c := Coefficients(Mul(a, b), randoms);
    forall i | 0 <= i < D
      ensures h[i] == Eval(c, i + 1) % P
    {
      NoWrapThresholdTwo(c, i + 1);
      ShareAccIsEval(c, i + 1, T);
      assert c[..T] == c;
    }
  }

  /** multiply's last step: the shares received from the D parties are
      recombined with the Vandermonde row. The running uint64 sum stays
      below D * P, so it never wraps; the result is resolve_shamir's
      interpolation of the received shares. */
  method Recombination(svc: Service, results: seq<nat>) returns (r: nat)
    requires ServiceValid(svc)
    requires |results| == D
    requires forall i :: 0 <= i < D ==> results[i] < U32
    ensures r == Interpolated(results)
  {
    ghost var term := (i: nat) => if i < D then (results[i] * svc.weights[i]) % P else 0;
    var sum: nat := 0;
    var i := 0;
    while i < D
      invariant i <= D
      invariant sum == Poly.Sum(i, term) && sum <= i * P
    {
      sum := sum + (results[i] * svc.weights[i]) % P;
      i := i + 1;
    }
    r := sum % P;
    RecombinationIsInterpolation(svc, results, term);
  }

  /** Weighting with the service's row is resolve_shamir's weighting. */
  lemma RecombinationIsInterpolation(svc: Service, results: seq<nat>, term: nat -> int)
    requires ServiceValid(svc) && |results| == D
    requires forall i: nat :: term(i) == if i < D then (results[i] * svc.weights[i]) % P else 0
    ensures Poly.Sum(D, term) % P == Interpolated(results)
  {
    var f := (i: nat) => if i < |results| then (Weight(|results|, i) * results[i]) % P else 0;
    forall i: nat | i < D
      ensures term(i) == f(i)
    {
      assert svc.weights[i] == Weight(D, i);
      assert results[i] * svc.weights[i] == Weight(D, i) * results[i];
    }
    SumExt(D, term, f);
  }

  /** Party j's product of its shares of two degree-1 sharings ca and cb. */
  ghost function ProductShare(ca: seq<nat>, cb: seq<nat>, j: nat): nat
  {
    Mul(Eval(ca, j + 1) % P, Eval(cb, j + 1) % P)
  }

  /** The polynomial party j shares its product with. */
  ghost function Resharing(ca: seq<nat>, cb: seq<nat>, rs: seq<seq<nat>>, j: nat): seq<nat>
    requires j < |rs|
  {
    Coefficients(ProductShare(ca, cb, j), rs[j])
  }

  /** What party i receives in multiply's exchange: party j's share for i. */
  ghost function Column(ca: seq<nat>, cb: seq<nat>, rs: seq<seq<nat>>, i: nat): seq<nat>
    requires |rs| == D
  {
    seq(D, (j: nat) requires j < D => Eval(Resharing(ca, cb, rs, j), i + 1) % P)
  }

  /** Every party's result of multiply. */
  ghost function Outputs(ca: seq<nat>, cb: seq<nat>, rs: seq<seq<nat>>): seq<nat>
    requires |rs| == D
  {
    seq(D, (i: nat) => Interpolated(Column(ca, cb, rs, i)))
  }

  /** The coefficients of the product of two degree-1 polynomials. */
  function ProductPoly(ca: seq<nat>, cb: seq<nat>): (q: seq<int>)
    requires |ca| == 2 && |cb| == 2
    ensures |q| == 3 && q[0] == ca[0] * cb[0]
  {
    [ca[0] * cb[0], ca[0] * cb[1] + ca[1] * cb[0], ca[1] * cb[1]]
  }

  lemma EvalProductPoly(ca: seq<nat>, cb: seq<nat>, z: int)
    requires |ca| == 2 && |cb| == 2
    ensures Eval(ProductPoly(ca, cb), z) == Eval(ca, z) * Eval(cb, z)
  {
    var q := ProductPoly(ca, cb);
    EvalPair(ca, z);
    EvalPair(cb, z);
    var t := q[1..];
    EvalPair(t, z);
    assert Eval(q, z) == q[0] + z * (q[1] + z * q[2]);
    calc {
      (ca[0] + z * ca[1]) * (cb[0] + z * cb[1]);
      ca[0] * cb[0] + z * (ca[0] * cb[1] + ca[1] * cb[0]) + (z * z) * (ca[1] * cb[1]);
      q[0] + z * (q[1] + z * q[2]);
    }
  }

  /** A polynomial with two coefficients. */
  lemma EvalPair(c: seq<int>, z: int)
    requires |c| == 2
    ensures Eval(c, z) == c[0] + z * c[1]
  {
    var t := c[1..];
    assert t[1..] == [];
    assert Eval(t, z) == t[0] + z * Eval(t[1..], z);
  }

  /** BGW degree reduction, in plaintext: when every party multiplies its
      shares of two degree-1 sharings, reshares the product and recombines
      what it receives, the parties' results open to the product of the two
      secrets, the product of the two inputs as they open. */
  lemma DegreeReduction(ca: seq<nat>, cb: seq<nat>, rs: seq<seq<nat>>)
    requires |ca| == T && |cb| == T && |rs| == D
    requires forall j :: 0 <= j < D ==> |rs[j]| == T - 1
    ensures Interpolated(Outputs(ca, cb, rs)) == Mul(ca[0], cb[0])
    ensures Interpolated(Outputs(ca, cb, rs))
      == Mul(Interpolated(SharesOf(ca, D)), Interpolated(SharesOf(cb, D)))
  {
    var ps := (j: nat) => if j < D then Scale(Resharing(ca, cb, rs, j), WeightFn(D)(j)) else [];
    ReducedOpens(ca, cb, rs, ps);
    OpenSharing(ca);
    OpenSharing(cb);
    ModMul(ca[0], cb[0], P);
  }

  /** The parties' results are the values at the nodes of the weighted sum
      of the resharing polynomials, whose constant term is the product. */
  lemma ReducedOpens(ca: seq<nat>, cb: seq<nat>, rs: seq<seq<nat>>, ps: nat -> seq<int>)
    requires |ca| == T && |cb| == T && |rs| == D
    requires forall j :: 0 <= j < D ==> |rs[j]| == T - 1
    requires forall j: nat :: j < D ==> ps(j) == Scale(Resharing(ca, cb, rs, j), WeightFn(D)(j))
    ensures Interpolated(Outputs(ca, cb, rs)) == (ca[0] * cb[0]) % P
  {
    var h := PolySum(D, ps);
    assert h == Add(PolySum(2, ps), ps(2));
    forall j: nat | j < D
      ensures |ps(j)| <= T
    {
      assert |Resharing(ca, cb, rs, j)| == T;
    }
    PolySumLength(D, ps, T);
    var out := Outputs(ca, cb, rs);
    forall i | 0 <= i < D
      ensures out[i] % P == Eval(h, i + 1) % P
    {
      OutputIsEval(ca, cb, rs, ps, i);
      EvalPolySum(D, ps, i + 1);
    }
    ResolveRoundTrip(h, out);
    ConstantOfReduced(ca, cb, rs, ps);
    EvalPolySum(D, ps, 0);
    assert h[0] == Eval(h, 0) by {
      assert 0 * Eval(h[1..], 0) == 0;
    }
  }

  /** The shares of a sharing polynomial open to its constant term. */
  lemma OpenSharing(c: seq<nat>)
    requires 1 <= |c| <= D
    ensures Interpolated(SharesOf(c, D)) == c[0] % P
  {
    var s := SharesOf(c, D);
    forall i | 0 <= i < D
      ensures s[i] % P == Eval(c, i + 1) % P
    {
      ModOfMod(Eval(c, i + 1), P);
    }
    ResolveRoundTrip(c, s);
  }

  /** Party i's result is, modulo P, the value at i + 1 of the weighted sum
      of the resharing polynomials. */
  lemma OutputIsEval(ca: seq<nat>, cb: seq<nat>, rs: seq<seq<nat>>, ps: nat -> seq<int>, i: nat)
    requires |rs| == D && i < D
    requires forall j: nat :: j < D ==> ps(j) == Scale(Resharing(ca, cb, rs, j), WeightFn(D)(j))
    ensures Interpolated(Column(ca, cb, rs, i)) % P == Poly.Sum(D, (j: nat) => Eval(ps(j), i + 1)) % P
  {
    var col := Column(ca, cb, rs, i);
    var f := (j: nat) => if j < |col| then (Weight(|col|, j) * col[j]) % P else 0;
    var g := (j: nat) => Eval(ps(j), i + 1);
    forall j: nat | j < D
      ensures f(j) % P == g(j) % P
    {
      var e := Eval(Resharing(ca, cb, rs, j), i + 1);
      EvalScale(Resharing(ca, cb, rs, j), WeightFn(D)(j), i + 1);
      ModOfMod(e, P);
      ModMulLeft(Weight(D, j), e % P, e, P);
      ModOfMod(Weight(D, j) * col[j], P);
    }
    SumCong(D, f, g);
    ModOfMod(Poly.Sum(D, f), P);
  }

  /** The constant term of the reduced polynomial is the recombination of
      the parties' products, which is the product of the two secrets. */
  lemma ConstantOfReduced(ca: seq<nat>, cb: seq<nat>, rs: seq<seq<nat>>, ps: nat -> seq<int>)
    requires |ca| == T && |cb| == T && |rs| == D
    requires forall j: nat :: j < D ==> ps(j) == Scale(Resharing(ca, cb, rs, j), WeightFn(D)(j))
    ensures Poly.Sum(D, (j: nat) => Eval(ps(j), 0)) % P == (ca[0] * cb[0]) % P
  {
    var w := WeightFn(D);
    var q := ProductPoly(ca, cb);
    var f := (j: nat) => Eval(ps(j), 0);
    var g := (j: nat) => w(j) * Eval(q, j + 1);
    forall j: nat | j < D
      ensures f(j) % P == g(j) % P
    {
      var c := Resharing(ca, cb, rs, j);
      EvalScale(c, w(j), 0);
      assert Eval(c, 0) == c[0] by {
        assert 0 * Eval(c[1..], 0) == 0;
      }
      var ea, eb := Eval(ca, j + 1), Eval(cb, j + 1);
      assert c[0] == ((ea % P) * (eb % P)) % P;
      ModMul(ea, eb, P);
      EvalProductPoly(ca, cb, j + 1);
      ModOfMod(ea * eb, P);
      assert c[0] % P == Eval(q, j + 1) % P;
      ModMulLeft(w(j), c[0], Eval(q, j + 1), P);
    }
    SumCong(D, f, g);
    WeightsSelectConstant(D);
    Recombine(D, w, q);
  }

  // ---------------------------------------------------------------------
  // random_bit

  /** 1 when modular_sqrt of r^2 is r itself, 0 when it is -r. */
  ghost function SignBit(r: nat): nat
  {
    if Exp((r * r) % P, (P + 1) / 4) % P == r then 1 else 0
  }

  /** random_bit's closing formula: with root a square root of r^2 and
      rootInv its inverse, rootInv * r is 1 or -1, and
      ((rootInv * r + 1) mod P) * 2^-1 mod P is 1 or 0 accordingly. */
  lemma RandomBitFormula(r: nat, root: nat, rootInv: nat, inverse2: nat)
    requires 0 < r < P && root < P
    requires (root * root) % P == (r * r) % P
    requires (root * rootInv) % P == 1
    requires (2 * inverse2) % P == 1
    ensures (((rootInv * r + 1) % P) * inverse2) % P == if root == r then 1 else 0
  {
    RootIsPlusMinus(r, root);
    if root == r {
      assert rootInv * r == root * rootInv;
      ModAdd(rootInv * r, 1, P);
      SmallMod(2, P);
      assert (rootInv * r + 1) % P == 2;
      assert 2 * inverse2 == inverse2 * 2;
    } else {
      RootIsMinus(r, root, rootInv);
    }
  }

  /** The square roots of r^2 are r and -r. */
  lemma RootIsPlusMinus(r: nat, root: nat)
    requires 0 < r < P && root < P
    requires (root * root) % P == (r * r) % P
    ensures root == r || root == P - r
  {
    assert (root - r) * (root + r) == root * root - r * r;
    ModSub(root * root, r * r, P);
    SmallMod(0, P);
    NoZeroDivisors(root - r, root + r);
    if (root - r) % P == 0 {
      ZeroResidue(root - r);
    } else {
      ModMultipleAdd(-1, root + r, P);
      ZeroResidue(root + r - P);
    }
  }

  /** The only multiple of P strictly between -P and P is 0. */
  lemma ZeroResidue(x: int)
    requires 0 < x + P && x < P && x % P == 0
    ensures x == 0
  {
    if x > 0 {
      SmallMod(x, P);
    } else if x < 0 {
      ModMultipleAdd(1, x, P);
      SmallMod(P + x, P);
    }
  }

  /** With root == -r, rootInv * r + 1 is a multiple of P. */
  lemma RootIsMinus(r: nat, root: nat, rootInv: nat)
    requires root == P - r && (root * rootInv) % P == 1
    ensures (rootInv * r + 1) % P == 0
  {
    assert rootInv * r + 1 == rootInv * P + (1 - root * rootInv);
    ModMultipleAdd(rootInv, 1 - root * rootInv, P);
    ModSub(1, root * rootInv, P);
    SmallMod(1, P);
    SmallMod(0, P);
  }

  /** random_bit: draws are the opened random numbers of successive rounds
      (random_number is left abstract). The first non-zero draw r gives a
      bit: 1 when modular_sqrt of r^2 returns r, else 0. All-zero draws
      never produce one; the source would keep retrying. */
  method RandomBit(draws: seq<nat>) returns (bit: Exchange.Option<nat>)
    requires forall k :: 0 <= k < |draws| ==> draws[k] < P
    ensures bit.None? <==> forall k :: 0 <= k < |draws| ==> draws[k] == 0
    ensures bit.Some? ==> bit.value <= 1
    ensures bit.Some? ==> exists k :: (0 <= k < |draws| && draws[k] != 0 &&
      (forall k' :: 0 <= k' < k ==> draws[k'] == 0) && bit.value == SignBit(draws[k]))
  {
    var inverse2 := ModInverse(2);
    var k := 0;
    while k < |draws|
      invariant k <= |draws|
      invariant forall k' :: 0 <= k' < k ==> draws[k'] == 0
    {
      var r := draws[k];
      var r2 := Mul(r, r);
      if r2 != 0 {
        var root := ModularSqrt(r2);
        SqrtOfSquare(r2, r);
        SmallMod(r2, P);
        if root == 0 {
          assert false;
        }
        var rootInv := ModInverse(root);
        RandomBitFormula(r, root, rootInv, inverse2);
        bit := Exchange.Some((((rootInv * r + 1) % P) * inverse2) % P);
        return;
      }
      if r != 0 {
        NoZeroDivisors(r, r);
        SmallMod(r, P);
      }
      k := k + 1;
    }
    bit := Exchange.None;
  }

  // ---------------------------------------------------------------------
  // fan_in_or

  /** Some entry is 1. */
  ghost predicate HasOne(s: seq<nat>)
  {
    exists k :: 0 <= k < |s| && s[k] == 1
  }

  /** The OR of bits, as 0 or 1. */
  ghost function Or(s: seq<nat>): (r: nat)
    ensures r <= 1
  {
    if HasOne(s) then 1 else 0
  }

  /** fan_in_or: A = 1 + the sum of the bits, then the fan polynomial at A,
      its powers formed by repeated multiply. On bits the result is their
      OR. */
  method FanInOr(bits: seq<nat>) returns (r: nat)
    requires 1 <= |bits| < P
    requires forall i :: 0 <= i < |bits| ==> bits[i] < U32
    ensures r < P
    ensures IsBits(bits) ==> r == Or(bits)
  {
    var a := Calc.Sum(bits, 1);
    SumNoWrap(bits, 1);
    var coeffs := LagrangePolynomialFan(|bits|);
    var alpha := coeffs[..];
    var res: nat := (alpha[0] + (alpha[1] * a) % P) % P;
    FanInOrStart(alpha, a);
    var mulA := a;
    var i := 1;
    while i < |bits|
      invariant 1 <= i <= |bits|
      invariant res % P == Eval(alpha[..i + 1], a) % P
      invariant res < (i + 1) * P
      invariant mulA == Exp(a, i) % P
    {
      FanInOrStep(alpha, a, i, res, mulA);
      mulA := Mul(a, mulA);
      res := res + (alpha[i + 1] * mulA) % P;
      i := i + 1;
    }
    r := res % P;
    assert alpha[..i + 1] == alpha;
    if IsBits(bits) {
      FanAtSum(bits, a, alpha);
    }
  }

  lemma FanInOrStart(c: seq<nat>, a: nat)
    requires |c| >= 2 && a < P
    ensures (c[0] + (c[1] * a) % P) % P == Eval(c[..2], a) % P
    ensures a == Exp(a, 1) % P
  {
    var c2 := c[..2];
    assert c2[1..][1..] == [];
    assert Eval(c2[1..], a) == c[1] + a * Eval(c2[1..][1..], a);
    assert Eval(c2, a) == c[0] + a * c[1];
    ModAdd(c[0], c[1] * a, P);
    ModOfMod(c[1] * a, P);
    ModAdd(c[0], (c[1] * a) % P, P);
    ModOfMod(c[0], P);
    assert Exp(a, 1) == a * Exp(a, 0);
    SmallMod(a, P);
  }

  /** One round of fan_in_or's loop: the next power of A and the next term. */
  lemma FanInOrStep(c: seq<nat>, a: nat, i: nat, res: nat, mulA: nat)
    requires i + 1 < |c|
    requires res % P == Eval(c[..i + 1], a) % P
    requires mulA == Exp(a, i) % P
    ensures Mul(a, mulA) == Exp(a, i + 1) % P
    ensures (res + (c[i + 1] * Mul(a, mulA)) % P) % P == Eval(c[..i + 2], a) % P
  {
    PowerModStep(a, i, P);
    assert a * mulA == mulA * a;
    var m := Mul(a, mulA);
    var e := Exp(a, i + 1);
    PrefixEval(c, i + 1, a);
    ModOfMod(e, P);
    ModMulLeft(c[i + 1], m, e, P);
    ModAdd(res, (c[i + 1] * m) % P, P);
    ModOfMod(c[i + 1] * m, P);
    ModAdd(Eval(c[..i + 1], a), c[i + 1] * e, P);
    ModOfMod(Eval(c[..i + 1], a), P);
  }

  /** The fan polynomial at 1 + the number of ones is the OR of the bits. */
  lemma FanAtSum(bits: seq<nat>, a: nat, alpha: seq<nat>)
    requires IsBits(bits) && 1 <= |bits| < P
    requires a == (1 + Total(bits)) % P
    requires |alpha| == |bits| + 1 && IsFan(alpha, |bits|)
    ensures Eval(alpha, a) % P == Or(bits)
  {
    TotalOfBits(bits);
    var z := 1 + Total(bits);
    if z < P {
      SmallMod(z, P);
    } else {
      assert z == P;
      EvalModNode(alpha, P);
    }
    assert Eval(alpha, z) % P == (if z == 1 then 0 else 1);
    if z != 1 {
      assert exists k :: 0 <= k < |bits| && bits[k] != 0;
      var k :| 0 <= k < |bits| && bits[k] != 0;
      assert bits[k] == 1;
    }
  }

  /** Evaluation modulo P depends on the node only modulo P. */
  lemma {:induction false} EvalModNode(c: seq<int>, z: int)
    ensures Eval(c, z) % P == Eval(c, z % P) % P
  {
    if |c| > 0 {
      EvalModNode(c[1..], z);
      var e, e' := Eval(c[1..], z), Eval(c[1..], z % P);
      ModOfMod(z, P);
      ModMul(z, e, P);
      ModMul(z % P, e', P);
      ModAdd(c[0], z * e, P);
      ModAdd(c[0], (z % P) * e', P);
    }
  }
}
