/** utils.cpp lagrange_polynomial_fan: the coefficients of the polynomial of
    degree at most count that is 0 at 1 and 1 at 2..count + 1, built as the
    sum of the Lagrange basis polynomials of the nodes 2..count + 1. */
module Fan {
  import opened Arith
  import opened Modulus
  import opened Field
  import opened Poly
  import opened Lagrange
  import opened Shamir

  // ---------------------------------------------------------------------
  // The scratch buffer temp as a value

  /** temp[0..count] holds the coefficients c modulo P, zero past the end of c;
      temp[1..count] are residues and temp[0] lies in 0..P. */
  ghost predicate Holds(t: seq<nat>, c: seq<int>, count: nat)
  {
    && |t| == count + 2 && 1 <= |c| <= count + 1
    && t[0] <= P
    && (forall k :: 1 <= k <= count ==> t[k] < P)
    && (forall k :: 0 <= k <= count ==> t[k] % P == Get(c, k) % P)
  }

  /** The update of one coefficient: (p + temp[k - 1] - (temp[k] * x mod 2^64)
      mod p) mod p. */
  function Shifted(below: nat, here: nat, x: nat): nat
  {
    (P + below - ((here * x) % U64) % P) % P
  }

  /** The update of the constant coefficient: p - (temp[0] * x mod 2^64) mod p. */
  function Negated(c0: nat, x: nat): nat
  {
    P - ((c0 * x) % U64) % P
  }

  /** temp after one multiplication by (z - x): the coefficients 1..v shifted,
      the constant negated, the rest untouched. */
  ghost predicate MultipliedBy(before: seq<nat>, after: seq<nat>, v: nat, x: nat)
  {
    && |after| == |before| && 2 <= v < |before|
    && after[0] == Negated(before[0], x)
    && (forall k :: 1 <= k <= v ==> after[k] == Shifted(before[k - 1], before[k], x))
    && (forall k :: v < k < |before| ==> after[k] == before[k])
  }

  lemma ShiftedEntry(a: nat, b: nat, x: nat, ca: int, cb: int)
    requires b < P && x < U32 && a % P == ca % P && b % P == cb % P
    ensures Shifted(a, b, x) % P == (ca - x * cb) % P
  {
    var w := b * x;
    ProductFits(b, x);
    ModOfMod(P + a - w % P, P);
    ModSubResidue(a, w, P);
    ModMulLeft(x, b, cb, P);
    assert w == x * b;
    SubCongruent(a, w, ca, x * cb);
  }

  /** A residue times a 32-bit value does not wrap at 2^64. */
  lemma ProductFits(b: nat, x: nat)
    requires b < P && x < U32
    ensures (b * x) % U64 == b * x
  {
    MulBound(b, x, P, U32);
  }

  lemma SubCongruent(a: int, b: int, a': int, b': int)
    requires a % P == a' % P && b % P == b' % P
    ensures (a - b) % P == (a' - b') % P
  {
    ModSub(a, b, P);
    ModSub(a', b', P);
  }

  lemma NegatedEntry(c0: nat, x: nat, cc: int)
    requires c0 <= P && x < U32 && c0 % P == cc % P
    ensures Negated(c0, x) % P == (0 - x * cc) % P
    ensures Negated(c0, x) <= P
  {
    MulBound(c0, x, P + 1, U32);
    var w := c0 * x;
    assert w % U64 == w;
    NegMod(w, P);
    ModMulLeft(x, c0, cc, P);
    assert w == x * c0;
    SubCongruent(0, x * c0, 0, x * cc);
  }

  lemma NegMod(w: int, m: int)
    requires m > 0
    ensures (m - w % m) % m == (0 - w) % m && m - w % m <= m
  {
    var r := w % m;
    ModMultipleAdd(1, -r, m);
    assert m - r == 1 * m + -r;
    ModMultipleAdd(w / m, 0 - w, m);
    assert 0 - r == (w / m) * m + (0 - w);
  }

  /** Multiplying temp by (z - x) in place multiplies the polynomial it holds. */
  lemma MultiplyHolds(before: seq<nat>, after: seq<nat>, c: seq<int>, count: nat, v: nat, x: nat)
    requires Holds(before, c, count) && |c| + 1 == v && v <= count + 1 && x < U32
    requires MultipliedBy(before, after, v, x)
    ensures Holds(after, MulLinear(c, x), count)
  {
    var d := MulLinear(c, x);
    forall k | 0 <= k <= count
      ensures after[k] % P == Get(d, k) % P
    {
      if k == 0 {
        NegatedEntry(before[0], x, Get(c, 0));
        MulLinearAt(c, x, 0);
      } else if k <= v {
        ShiftedEntry(before[k - 1], before[k], x, Get(c, k - 1), Get(c, k));
        if k < |d| {
          MulLinearAt(c, x, k);
        }
      } else {
        assert Get(c, k) == 0 && Get(d, k) == 0;
      }
    }
    NegatedEntry(before[0], x, Get(c, 0));
  }

  // ---------------------------------------------------------------------
  // The sum of the basis polynomials

  /** Coefficient-wise coeffs[i] + temp[i] * inv modulo P. */
  ghost predicate Accumulated(before: seq<nat>, after: seq<nat>, t: seq<nat>, inv: nat)
  {
    && |after| == |before| && |before| <= |t|
    && forall i :: 0 <= i < |before| ==> after[i] == (before[i] + (t[i] * inv) % P) % P
  }

  /** The fan polynomial so far: 0 at every node 1..count + 1 except the
      nodes 2..xj - 1, where it is 1. */
  ghost predicate FanSoFar(coeffs: seq<nat>, count: nat, xj: nat)
  {
    && |coeffs| == count + 1
    && (forall i :: 0 <= i < |coeffs| ==> coeffs[i] < P)
    && forall z :: 1 <= z <= count + 1 ==> Eval(coeffs, z) % P == (if 2 <= z < xj then 1 else 0)
  }

  lemma EvalAccumulated(before: seq<nat>, after: seq<nat>, t: seq<nat>, inv: nat, z: int)
    requires Accumulated(before, after, t, inv)
    ensures Eval(after, z) % P == (Eval(before, z) + inv * Eval(t[..|before|], z)) % P
  {
    var t' := t[..|before|];
    AccumulatedCong(before, after, t, inv);
    EvalCong(after, Add(before, Scale(t', inv)), z);
    EvalAdd(before, Scale(t', inv), z);
    EvalScale(t', inv, z);
    SumOfScaled(Eval(after, z), Eval(Add(before, Scale(t', inv)), z), Eval(before, z),
      Eval(Scale(t', inv), z), inv, Eval(t', z));
  }

  /** Accumulated rows agree, entry by entry, with before + t * inv. */
  lemma AccumulatedCong(before: seq<nat>, after: seq<nat>, t: seq<nat>, inv: nat)
    requires Accumulated(before, after, t, inv)
    ensures |Add(before, Scale(t[..|before|], inv))| == |after|
    ensures forall i :: 0 <= i < |after| ==> after[i] % P == Add(before, Scale(t[..|before|], inv))[i] % P
  {
    var t' := t[..|before|];
    var sum := Add(before, Scale(t', inv));
    forall i | 0 <= i < |after|
      ensures after[i] % P == sum[i] % P
    {
      AccumulatedEntry(before[i], t[i], inv);
      assert sum[i] == before[i] + inv * t'[i];
    }
  }

  lemma SumOfScaled(ea: int, es: int, eb: int, esc: int, inv: int, et: int)
    requires ea % P == es % P && es == eb + esc && esc == inv * et
    ensures ea % P == (eb + inv * et) % P
  {
  }

  lemma AccumulatedEntry(b: int, x: int, inv: int)
    ensures ((b + (x * inv) % P) % P) % P == (b + inv * x) % P
  {
    ModOfMod(b + (x * inv) % P, P);
    ModAdd(b, (x * inv) % P, P);
    ModOfMod(x * inv, P);
    ModAdd(b, x * inv, P);
    assert x * inv == inv * x;
  }

  /** Adding the basis polynomial of node xj, temp / temp(xj), moves xj from
      the nodes where the fan is 0 to those where it is 1. */
  lemma AccumulateBasis(before: seq<nat>, after: seq<nat>, t: seq<nat>, count: nat, xj: nat, den: nat, inv: nat)
    requires FanSoFar(before, count, xj) && 2 <= xj <= count + 1 && count < P
    requires Holds(t, ProdLinear(Others(xj - 1, count + 1)), count)
    requires den % P == NodeProd(Others(xj - 1, count + 1), xj) % P
    requires (den * inv) % P == 1
    requires Accumulated(before, after, t, inv)
    ensures FanSoFar(after, count, xj + 1)
  {
    var ns := Others(xj - 1, count + 1);
    var b := ProdLinear(ns);
    var t' := t[..count + 1];
    assert |b| == count + 1;
    forall k | 0 <= k < count + 1
      ensures t[k] % P == b[k] % P
    {
      assert Get(b, k) == b[k];
    }
    forall z | 1 <= z <= count + 1
      ensures Eval(after, z) % P == (if 2 <= z < xj + 1 then 1 else 0)
    {
      EvalAccumulated(before, after, t, inv, z);
      AccumulateAt(before, after, t, count, xj, den, inv, z);
    }
  }

  lemma AccumulateAt(before: seq<nat>, after: seq<nat>, t: seq<nat>, count: nat, xj: nat, den: nat, inv: nat, z: nat)
    requires 2 <= xj <= count + 1 && count < P && 1 <= z <= count + 1
    requires |before| == count + 1 && |t| == count + 2
    requires Eval(before, z) % P == (if 2 <= z < xj then 1 else 0)
    requires forall k | 0 <= k < count + 1 :: t[k] % P == ProdLinear(Others(xj - 1, count + 1))[k] % P
    requires den % P == NodeProd(Others(xj - 1, count + 1), xj) % P
    requires (den * inv) % P == 1
    requires Eval(after, z) % P == (Eval(before, z) + inv * Eval(t[..|before|], z)) % P
    ensures Eval(after, z) % P == (if 2 <= z < xj + 1 then 1 else 0)
  {
    EvalProdLinear(Others(xj - 1, count + 1), z);
    AddBasisAt(before, after, t, ProdLinear(Others(xj - 1, count + 1)), NodeProd(Others(xj - 1, count + 1), z), inv, z);
    if z != xj {
      OthersVanishAt(xj - 1, count + 1, z);
    }
    FanStep(Eval(before, z), Eval(after, z), NodeProd(Others(xj - 1, count + 1), z), den, inv, z, xj);
  }

  /** The value of the fan at z after adding the basis polynomial of xj,
      whose value at z is e. */
  lemma FanStep(prev: int, next: int, e: int, den: int, inv: int, z: nat, xj: nat)
    requires next % P == (prev + inv * e) % P
    requires 2 <= xj && prev % P == (if 2 <= z < xj then 1 else 0)
    requires z == xj ==> e % P == den % P
    requires z != xj ==> e == 0
    requires (den * inv) % P == 1
    ensures next % P == (if 2 <= z < xj + 1 then 1 else 0)
  {
    if z == xj {
      OwnNodeTerm(prev, e, den, inv);
    } else {
      assert inv * e == 0;
    }
  }

  /** At its own node the added basis polynomial contributes 1 to a fan
      that was 0 there. */
  lemma OwnNodeTerm(prev: int, e: int, den: int, inv: int)
    requires prev % P == 0 && e % P == den % P && (den * inv) % P == 1
    ensures (prev + inv * e) % P == 1
  {
    ModMulLeft(inv, e, den, P);
    assert inv * den == den * inv;
    ModAdd(prev, inv * e, P);
  }

  /** The fan after adding temp * inv, at z, when temp holds the coefficients
      of a polynomial b whose value at z is e. */
  lemma AddBasisAt(before: seq<nat>, after: seq<nat>, t: seq<nat>, b: seq<int>, e: int, inv: nat, z: int)
    requires |b| == |before| <= |t| && Eval(b, z) == e
    requires forall k | 0 <= k < |before| :: t[k] % P == b[k] % P
    requires Eval(after, z) % P == (Eval(before, z) + inv * Eval(t[..|before|], z)) % P
    ensures Eval(after, z) % P == (Eval(before, z) + inv * e) % P
  {
    forall k | 0 <= k < |before|
      ensures t[..|before|][k] % P == b[k] % P
    {
      assert t[..|before|][k] == t[k];
    }
    EvalCong(t[..|before|], b, z);
    AddScaledCong(Eval(after, z), Eval(before, z), inv, Eval(t[..|before|], z), e);
  }

  lemma AddScaledCong(r: int, a: int, s: int, x: int, y: int)
    requires r % P == (a + s * x) % P && x % P == y % P
    ensures r % P == (a + s * y) % P
  {
    ModMulLeft(s, x, y, P);
    ModAdd(a, s * x, P);
    ModAdd(a, s * y, P);
  }

  lemma EvalZeros(c: seq<nat>, z: int)
    requires forall i :: 0 <= i < |c| ==> c[i] == 0
    ensures Eval(c, z) == 0
  {
    if |c| > 0 {
      EvalZeros(c[1..], z);
    }
  }

  // ---------------------------------------------------------------------
  // lagrange_polynomial_fan

  /** The fan polynomial of the nodes 1..count + 1: 0 at 1 and 1 at the rest. */
  ghost predicate IsFan(c: seq<int>, count: nat)
  {
    forall z :: 1 <= z <= count + 1 ==> Eval(c, z) % P == (if z == 1 then 0 else 1)
  }

  /** lagrange_polynomial_fan: the count + 1 coefficients, modulo P, of the
      polynomial of degree at most count that is 0 at node 1 and 1 at the
      nodes 2..count + 1. */
  method LagrangePolynomialFan(count: nat) returns (coeffs: array<nat>)
    requires count < P
    ensures fresh(coeffs) && coeffs.Length == count + 1
    ensures forall i :: 0 <= i < coeffs.Length ==> coeffs[i] < P
    ensures IsFan(coeffs[..], count)
  {
    coeffs := new nat[count + 1](_ => 0);
    // temp[count + 1] is never initialised by the source; no contract below
    // depends on its value.
    var temp := new nat[count + 2];
    forall z | 1 <= z <= count + 1
      ensures Eval(coeffs[..], z) % P == 0
    {
      EvalZeros(coeffs[..], z);
    }
    var xj := 2;
    while xj <= count + 1
      invariant 2 <= xj <= count + 2
      invariant FanSoFar(coeffs[..], count, xj)
    {
      var den := BasisAt(temp, count, xj);
      OthersNonzero(xj - 1, count + 1);
      var inv := ModInverse(den);
      ghost var before := coeffs[..];
      Accumulate(coeffs, temp, inv);
      AccumulateBasis(before, coeffs[..], temp[..], count, xj, den, inv);
      xj := xj + 1;
    }
    assert FanSoFar(coeffs[..], count, count + 2);
  }

  /** The inner loops for node xj: temp receives the coefficients of the
      product of (z - xm) over the other nodes xm, and the result is the
      value of that product at xj, reduced modulo P. */
  method BasisAt(temp: array<nat>, count: nat, xj: nat) returns (den: nat)
    requires temp.Length == count + 2 && count < P && 2 <= xj <= count + 1
    modifies temp
    ensures Holds(temp[..], ProdLinear(Others(xj - 1, count + 1)), count)
    ensures den < P && den % P == NodeProd(Others(xj - 1, count + 1), xj) % P
  {
    ResetTemp(temp, count);
    assert ProdLinear(Others(xj - 1, 0)) == [1];
    den := 1;
    var v := 2;
    var xm := 1;
    while xm <= count + 1
      invariant 1 <= xm <= count + 2
      invariant v == if xj < xm then xm else xm + 1
      invariant Holds(temp[..], ProdLinear(Others(xj - 1, xm - 1)), count)
      invariant den < P && den % P == NodeProd(Others(xj - 1, xm - 1), xj) % P
    {
      v, den := NextNode(temp, count, xj, xm, v, den);
      xm := xm + 1;
    }
  }

  /** One pass of the inner loop: node xm is skipped when it is xj and
      multiplied in otherwise. */
  method NextNode(temp: array<nat>, count: nat, xj: nat, xm: nat, v: nat, den: nat) returns (v': nat, den': nat)
    requires temp.Length == count + 2 && count < P
    requires 2 <= xj <= count + 1 && 1 <= xm <= count + 1
    requires v == if xj < xm then xm else xm + 1
    requires Holds(temp[..], ProdLinear(Others(xj - 1, xm - 1)), count)
    requires den < P && den % P == NodeProd(Others(xj - 1, xm - 1), xj) % P
    modifies temp
    ensures v' == if xj < xm + 1 then xm + 1 else xm + 2
    ensures Holds(temp[..], ProdLinear(Others(xj - 1, xm)), count)
    ensures den' < P && den' % P == NodeProd(Others(xj - 1, xm), xj) % P
  {
    if xj != xm {
      den' := MultiplyOther(temp, count, xj, xm, v, den);
      v' := v + 1;
    } else {
      assert Others(xj - 1, xm) == Others(xj - 1, xm - 1);
      v', den' := v, den;
    }
  }

  /** temp := 1, 0, ..., 0 in its first count + 1 cells: the constant
      polynomial 1. */
  method ResetTemp(temp: array<nat>, count: nat)
    requires temp.Length == count + 2
    modifies temp
    ensures Holds(temp[..], [1], count)
  {
    temp[0] := 1;
    for i := 1 to count + 1
      invariant temp[0] == 1
      invariant forall k :: 1 <= k < i ==> temp[k] == 0
    {
      temp[i] := 0;
    }
  }

  /** The body of the inner loop for a node xm other than xj: the denominator
      gains the factor (xj - xm) and temp is multiplied by (z - xm). */
  method MultiplyOther(temp: array<nat>, count: nat, xj: nat, xm: nat, v: nat, den: nat) returns (den': nat)
    requires temp.Length == count + 2 && count < P
    requires 2 <= xj <= count + 1 && 1 <= xm <= count + 1 && xj != xm
    requires v == if xj < xm then xm else xm + 1
    requires Holds(temp[..], ProdLinear(Others(xj - 1, xm - 1)), count)
    requires den < P && den % P == NodeProd(Others(xj - 1, xm - 1), xj) % P
    modifies temp
    ensures Holds(temp[..], ProdLinear(Others(xj - 1, xm)), count)
    ensures den' < P && den' % P == NodeProd(Others(xj - 1, xm), xj) % P
  {
    var os := Others(xj - 1, xm - 1);
    assert Others(xj - 1, xm) == os + [xm];
    assert (os + [xm])[..|os|] == os;
    DenominatorFactor(den, xj, xm);
    den' := (den * (P + xj - xm)) % P;
    ghost var before := temp[..];
    MultiplyByNode(temp, v, xm);
    MultiplyHolds(before, temp[..], ProdLinear(os), count, v, xm);
  }

  lemma DenominatorFactor(den: nat, xj: nat, xm: nat)
    requires 1 <= xm <= P && 2 <= xj && xj != xm
    requires den < P && den % P == NodeProd(Others(xj - 1, xm - 1), xj) % P
    ensures var r := (den * (P + xj - xm)) % P; r < P && r % P == NodeProd(Others(xj - 1, xm), xj) % P
  {
    var os := Others(xj - 1, xm - 1);
    assert Others(xj - 1, xm) == os + [xm];
    NodeProdSnoc(os, xm, xj);
    ModMultipleAdd(1, xj - xm, P);
    assert P + xj - xm == 1 * P + (xj - xm);
    ModMulLeft(den, P + xj - xm, xj - xm, P);
    ModMulRight(den, NodeProd(os, xj), xj - xm, P);
    ModOfMod(den * (P + xj - xm), P);
  }

  /** Multiplies the polynomial in temp[0..v - 1] by (z - x) in place, from
      the top coefficient down. */
  method MultiplyByNode(temp: array<nat>, v: nat, x: nat)
    requires 2 <= v < temp.Length
    modifies temp
    ensures MultipliedBy(old(temp[..]), temp[..], v, x)
  {
    var pos := v;
    while pos != 0
      invariant 0 <= pos <= v
      invariant forall k :: pos < k <= v ==> temp[k] == Shifted(old(temp[k - 1]), old(temp[k]), x)
      invariant forall k :: 0 <= k <= pos || v < k < temp.Length ==> temp[k] == old(temp[k])
    {
      temp[pos] := (P + temp[pos - 1] - ((temp[pos] * x) % U64) % P) % P;
      pos := pos - 1;
    }
    temp[0] := P - ((temp[0] * x) % U64) % P;
  }

  /** coeffs[i] += temp[i] * inv modulo P; the product of a value at most P
      and a residue never wraps at 2^64. */
  method Accumulate(coeffs: array<nat>, temp: array<nat>, inv: nat)
    requires coeffs != temp && coeffs.Length < temp.Length && inv < P
    requires forall i :: 0 <= i < coeffs.Length ==> temp[i] <= P
    modifies coeffs
    ensures Accumulated(old(coeffs[..]), coeffs[..], temp[..], inv)
  {
    ghost var c0, t := coeffs[..], temp[..];
    for i := 0 to coeffs.Length
      invariant forall k :: 0 <= k < i ==> coeffs[k] == (c0[k] + (t[k] * inv) % P) % P
      invariant forall k :: i <= k < coeffs.Length ==> coeffs[k] == c0[k]
    {
      MulBound(temp[i], inv, P + 1, P);
      var w := (temp[i] * inv) % U64;
      assert w == t[i] * inv;
      coeffs[i] := (coeffs[i] + w % P) % P;
    }
  }

  /** The fan is unique: any polynomial with at most count + 1 coefficients
      and the fan's values at 1..count + 1 agrees with it modulo P everywhere. */
  lemma FanUnique(c: seq<int>, d: seq<int>, count: nat, z: int)
    requires count < P && |c| <= count + 1 && |d| <= count + 1
    requires IsFan(c, count) && IsFan(d, count)
    ensures Eval(d, z) % P == Eval(c, z) % P
  {
    var e := Add(d, Scale(c, -1));
    var ns := Nodes(count + 1, NodeFn());
    FirstNodesDistinct(count + 1);
    forall j | 0 <= j < |ns|
      ensures Eval(e, ns[j]) % P == 0
    {
      assert ns[j] == j + 1;
      DifferenceVanishes(c, d, count, j + 1);
    }
    RootCount(e, ns, z);
    DifferenceAt(c, d, z);
    CongOfDiff(Eval(d, z), Eval(c, z), P);
  }

  lemma FirstNodesDistinct(n: nat)
    requires n <= P
    ensures DistinctMod(Nodes(n, NodeFn()))
  {
    var ns := Nodes(n, NodeFn());
    forall i, j | 0 <= i < j < n
      ensures (ns[i] - ns[j]) % P != 0
    {
      assert ns[i] - ns[j] == i - j;
      SmallNonzero(i - j);
    }
  }

  lemma DifferenceVanishes(c: seq<int>, d: seq<int>, count: nat, y: int)
    requires IsFan(c, count) && IsFan(d, count) && 1 <= y <= count + 1
    ensures Eval(Add(d, Scale(c, -1)), y) % P == 0
  {
    DifferenceAt(c, d, y);
    DiffOfCong(Eval(d, y), Eval(c, y), P);
  }

  lemma DifferenceAt(c: seq<int>, d: seq<int>, z: int)
    ensures Eval(Add(d, Scale(c, -1)), z) == Eval(d, z) - Eval(c, z)
  {
    EvalAdd(d, Scale(c, -1), z);
    EvalScale(c, -1, z);
  }
}
