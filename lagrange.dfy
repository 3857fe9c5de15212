/** Lagrange interpolation modulo P: sums of polynomials, the interpolation
    of z^k from a family of basis polynomials, and recombination of
    evaluations at 1..n into the constant term. */
module Lagrange {
  import opened Arith
  import opened Modulus
  import opened Poly

  /** The inverse of v, or 0 for a multiple of P. */
  ghost function InvOrZero(v: int): (r: nat)
    ensures v % P != 0 ==> (v * r) % P == 1
  {
    if v % P == 0 then 0 else Inv(v)
  }

  /** ps(0) + ... + ps(n - 1), coefficient-wise. */
  ghost function PolySum(n: nat, ps: nat -> seq<int>): seq<int>
  {
    if n == 0 then [] else Add(PolySum(n - 1, ps), ps(n - 1))
  }

  lemma {:induction false} EvalPolySum(n: nat, ps: nat -> seq<int>, z: int)
    ensures Eval(PolySum(n, ps), z) == Sum(n, (i: nat) => Eval(ps(i), z))
  {
    if n > 0 {
      EvalPolySum(n - 1, ps, z);
      EvalAdd(PolySum(n - 1, ps), ps(n - 1), z);
    }
  }

  lemma {:induction false} PolySumLength(n: nat, ps: nat -> seq<int>, len: nat)
    requires forall i: nat :: i < n ==> |ps(i)| <= len
    ensures |PolySum(n, ps)| <= len
  {
    if n > 0 {
      PolySumLength(n - 1, ps, len);
    }
  }

  /** The coefficients of z^k. */
  ghost function Mono(k: nat): (r: seq<int>)
    ensures |r| == k + 1
  {
    if k == 0 then [1] else [0] + Mono(k - 1)
  }

  lemma {:induction false} EvalMono(k: nat, z: int)
    ensures Eval(Mono(k), z) == Exp(z, k)
  {
    if k > 0 {
      EvalMono(k - 1, z);
      assert ([0] + Mono(k - 1))[1..] == Mono(k - 1);
    }
  }

  /** The interpolation weight of basis polynomial b for z^k at node x. */
  ghost function PowerWeight(x: int, b: seq<int>, k: nat): int
  {
    Exp(x, k) * InvOrZero(Eval(b, x))
  }

  /** A basis family for nodes x(0..n-1): b(i) has at most n coefficients,
      vanishes at every other node and not at its own. */
  ghost predicate IsBasis(n: nat, x: nat -> int, b: nat -> seq<int>)
  {
    && (forall i: nat, j: nat :: i < j < n ==> (x(i) - x(j)) % P != 0)
    && (forall i: nat :: i < n ==> |b(i)| <= n && Eval(b(i), x(i)) % P != 0)
    && (forall i: nat, r: nat :: i < n && r < n && i != r ==> Eval(b(i), x(r)) % P == 0)
  }

  /** sum_i x_i^k / b_i(x_i) * b_i(z): the interpolant of z^k at z. */
  ghost function Interp(n: nat, x: nat -> int, b: nat -> seq<int>, k: nat, z: int): int
  {
    Sum(n, (i: nat) => PowerWeight(x(i), b(i), k) * Eval(b(i), z))
  }

  /** The coefficients of the interpolant of z^k minus z^k itself. */
  ghost function ErrorPoly(n: nat, x: nat -> int, b: nat -> seq<int>, k: nat): seq<int>
  {
    Add(PolySum(n, (i: nat) => Scale(b(i), PowerWeight(x(i), b(i), k))), Scale(Mono(k), -1))
  }

  /** Interpolating z^k (k < n) from its values at the nodes reproduces it:
      sum_i x_i^k / b_i(x_i) * b_i(z) == z^k modulo P. */
  lemma InterpolatePower(n: nat, x: nat -> int, b: nat -> seq<int>, k: nat, z: int)
    requires k < n && IsBasis(n, x, b)
    ensures Interp(n, x, b, k, z) % P == Exp(z, k) % P
  {
    var s := ErrorPoly(n, x, b, k);
    ErrorPolyLength(n, x, b, k);
    var ns := Nodes(n, x);
    NodeSeqDistinct(n, x, b);
    forall r | 0 <= r < n
      ensures Eval(s, ns[r]) % P == 0
    {
      ErrorAtNode(n, x, b, k, r);
    }
    RootCount(s, ns, z);
    EvalErrorPoly(n, x, b, k, z);
    CongOfDiff(Interp(n, x, b, k, z), Exp(z, k), P);
  }

  /** The nodes x(0..n-1) as a sequence. */
  ghost function Nodes(n: nat, x: nat -> int): (r: seq<int>)
    ensures |r| == n && forall i :: 0 <= i < n ==> r[i] == x(i)
  {
    seq(n, (i: nat) => x(i))
  }

  lemma NodeSeqDistinct(n: nat, x: nat -> int, b: nat -> seq<int>)
    requires IsBasis(n, x, b)
    ensures DistinctMod(Nodes(n, x))
  {
    var ns := Nodes(n, x);
    forall i, j | 0 <= i < j < n
      ensures (ns[i] - ns[j]) % P != 0
    {
      assert ns[i] == x(i) && ns[j] == x(j);
    }
  }

  /** The error polynomial vanishes at every node. */
  lemma ErrorAtNode(n: nat, x: nat -> int, b: nat -> seq<int>, k: nat, r: nat)
    requires r < n && IsBasis(n, x, b)
    ensures Eval(ErrorPoly(n, x, b, k), x(r)) % P == 0
  {
    InterpolateAtNode(n, x, b, k, r);
    EvalErrorPoly(n, x, b, k, x(r));
    DiffOfCong(Interp(n, x, b, k, x(r)), Exp(x(r), k), P);
  }

  lemma ErrorPolyLength(n: nat, x: nat -> int, b: nat -> seq<int>, k: nat)
    requires k < n && IsBasis(n, x, b)
    ensures |ErrorPoly(n, x, b, k)| <= n
  {
    PolySumLength(n, (i: nat) => Scale(b(i), PowerWeight(x(i), b(i), k)), n);
  }

  lemma EvalErrorPoly(n: nat, x: nat -> int, b: nat -> seq<int>, k: nat, z: int)
    ensures Eval(ErrorPoly(n, x, b, k), z) == Interp(n, x, b, k, z) - Exp(z, k)
  {
    var ps := (i: nat) => Scale(b(i), PowerWeight(x(i), b(i), k));
    EvalAdd(PolySum(n, ps), Scale(Mono(k), -1), z);
    EvalScale(Mono(k), -1, z);
    EvalMono(k, z);
    EvalPolySum(n, ps, z);
    forall i: nat | i < n
      ensures Eval(ps(i), z) == PowerWeight(x(i), b(i), k) * Eval(b(i), z)
    {
      EvalScale(b(i), PowerWeight(x(i), b(i), k), z);
    }
    SumExt(n, (i: nat) => Eval(ps(i), z), (i: nat) => PowerWeight(x(i), b(i), k) * Eval(b(i), z));
  }

  /** At node x(r) only the r-th basis polynomial survives. */
  lemma InterpolateAtNode(n: nat, x: nat -> int, b: nat -> seq<int>, k: nat, r: nat)
    requires r < n && IsBasis(n, x, b)
    ensures Interp(n, x, b, k, x(r)) % P == Exp(x(r), k) % P
  {
    var f := (i: nat) => PowerWeight(x(i), b(i), k) * Eval(b(i), x(r));
    forall i: nat | i < n && i != r
      ensures f(i) % P == 0
    {
      ModMulLeft(PowerWeight(x(i), b(i), k), Eval(b(i), x(r)), 0, P);
    }
    SumSingle(n, f, r);
    assert f(r) == PowerWeight(x(r), b(r), k) * Eval(b(r), x(r));
    OwnWeight(x(r), b(r), k);
  }

  /** The weight of a basis polynomial times its value at its own node is x^k. */
  lemma OwnWeight(x: int, b: seq<int>, k: nat)
    requires Eval(b, x) % P != 0
    ensures (PowerWeight(x, b, k) * Eval(b, x)) % P == Exp(x, k) % P
  {
    var e, a := Eval(b, x), Exp(x, k);
    var v := InvOrZero(e);
    assert PowerWeight(x, b, k) == a * v;
    MulAssoc(a, v, e);
    assert (e * v) % P == 1;
    assert v * e == e * v;
    ModMulLeft(a, v * e, 1, P);
  }

  /** sum_i w(i) * (i + 1)^k: the weights applied to the k-th powers of 1..n. */
  ghost function PowerSum(n: nat, w: nat -> int, k: nat): int
  {
    Sum(n, (i: nat) => w(i) * Exp(i + 1, k))
  }

  /** The weights select the constant term from the powers of the nodes 1..n. */
  ghost predicate SelectsConstant(n: nat, w: nat -> int)
  {
    forall k: nat :: k < n ==> PowerSum(n, w, k) % P == (if k == 0 then 1 else 0)
  }

  /** PowerSum is linear in the weights. */
  lemma PowerSumSub(n: nat, w: nat -> int, v: nat -> int, d: nat -> int, k: nat)
    requires forall r: nat :: r < n ==> d(r) == w(r) - v(r)
    ensures PowerSum(n, d, k) == PowerSum(n, w, k) - PowerSum(n, v, k)
  {
    var f := (r: nat) => w(r) * Exp(r + 1, k);
    var g := (r: nat) => v(r) * Exp(r + 1, k);
    var mg := (r: nat) => -1 * g(r);
    var h := (r: nat) => d(r) * Exp(r + 1, k);
    forall r: nat | r < n
      ensures h(r) == f(r) + mg(r)
    {
      assert d(r) * Exp(r + 1, k) == w(r) * Exp(r + 1, k) - v(r) * Exp(r + 1, k);
    }
    SumAdd(n, f, mg, h);
    SumScale(n, g, -1, mg);
    assert PowerSum(n, d, k) == Sum(n, h);
    assert PowerSum(n, w, k) == Sum(n, f);
    assert PowerSum(n, v, k) == Sum(n, g);
  }

  /** Applying weights to the values of a polynomial at 1..n is applying
      them to the powers of the nodes, coefficient by coefficient. */
  lemma PowerSumExpand(n: nat, w: nat -> int, c: seq<int>)
    ensures Sum(n, (i: nat) => w(i) * Eval(c, i + 1))
      == Sum(|c|, (k: nat) => if k < |c| then c[k] * PowerSum(n, w, k) else 0)
  {
    var m := |c|;
    forall i: nat | i < n
      ensures w(i) * Eval(c, i + 1) == Sum(m, (k: nat) => Cell(w, c)(i, k))
    {
      RowSum(w, c, i);
    }
    SumExt(n, (i: nat) => w(i) * Eval(c, i + 1), (i: nat) => Sum(m, (k: nat) => Cell(w, c)(i, k)));
    SumSwap(n, m, Cell(w, c));
    forall k: nat | k < m
      ensures Sum(n, (i: nat) => Cell(w, c)(i, k)) == c[k] * PowerSum(n, w, k)
    {
      ColumnSum(n, w, c, k);
    }
    SumExt(m, (k: nat) => Sum(n, (i: nat) => Cell(w, c)(i, k)), (k: nat) => if k < m then c[k] * PowerSum(n, w, k) else 0);
  }

  /** The term of coefficient k at node i + 1, weighted by w(i). */
  ghost function Cell(w: nat -> int, c: seq<int>): (nat, nat) -> int
  {
    (i: nat, k: nat) => if k < |c| then c[k] * (w(i) * Exp(i + 1, k)) else 0
  }

  lemma RowSum(w: nat -> int, c: seq<int>, i: nat)
    ensures w(i) * Eval(c, i + 1) == Sum(|c|, (k: nat) => Cell(w, c)(i, k))
  {
    var t := Term(c, i + 1);
    forall k: nat | k < |c|
      ensures Cell(w, c)(i, k) == w(i) * t(k)
    {
      Rotate(c[k], Exp(i + 1, k), w(i));
      MulAssoc(c[k], w(i), Exp(i + 1, k));
      assert c[k] * w(i) == w(i) * c[k];
      MulAssoc(w(i), c[k], Exp(i + 1, k));
    }
    EvalAsSum(c, i + 1);
    SumScale(|c|, t, w(i), (k: nat) => Cell(w, c)(i, k));
  }

  lemma ColumnSum(n: nat, w: nat -> int, c: seq<int>, k: nat)
    requires k < |c|
    ensures Sum(n, (i: nat) => Cell(w, c)(i, k)) == c[k] * PowerSum(n, w, k)
  {
    var pk := (i: nat) => w(i) * Exp(i + 1, k);
    forall i: nat | i < n
      ensures Cell(w, c)(i, k) == c[k] * pk(i)
    {
    }
    SumScale(n, pk, c[k], (i: nat) => Cell(w, c)(i, k));
    assert Sum(n, pk) == PowerSum(n, w, k);
  }

  /** Weights w that pick the constant term out of the powers at 1..n also
      pick it out of any polynomial with at most n coefficients. */
  lemma Recombine(n: nat, w: nat -> int, c: seq<int>)
    requires 1 <= |c| <= n && SelectsConstant(n, w)
    ensures Sum(n, (i: nat) => w(i) * Eval(c, i + 1)) % P == c[0] % P
  {
    PowerSumExpand(n, w, c);
    var m := |c|;
    var g := (k: nat) => if k < m then c[k] * PowerSum(n, w, k) else 0;
    forall k: nat | k < m && k != 0
      ensures g(k) % P == 0
    {
      ModMulLeft(c[k], PowerSum(n, w, k), 0, P);
    }
    SumSingle(m, g, 0);
    ModMulLeft(c[0], PowerSum(n, w, 0), 1, P);
  }

  /** Weights that annihilate the powers 0..m - 1 of the nodes 1..n
      annihilate every polynomial with at most m coefficients. */
  lemma Annihilate(n: nat, w: nat -> int, c: seq<int>)
    requires forall k: nat :: k < |c| ==> PowerSum(n, w, k) % P == 0
    ensures Sum(n, (i: nat) => w(i) * Eval(c, i + 1)) % P == 0
  {
    PowerSumExpand(n, w, c);
    var m := |c|;
    var g := (k: nat) => if k < m then c[k] * PowerSum(n, w, k) else 0;
    forall k: nat | k < m
      ensures g(k) % P == 0
    {
      ModMulLeft(c[k], PowerSum(n, w, k), 0, P);
    }
    SumZero(m, g);
  }

  /** a / b and c / d agree modulo P when a * d == c * b. */
  lemma RatioCong(a: int, b: int, c: int, d: int)
    requires b % P != 0 && d % P != 0 && a * d == c * b
    ensures (a * Inv(b)) % P == (c * Inv(d)) % P
  {
    var ib, id := Inv(b), Inv(d);
    // a / b == a * d * (1/b) * (1/d) == c * b * (1/b) * (1/d) == c / d
    assert a * ib * (d * id) == (a * d) * ib * id;
    assert c * id * (b * ib) == (c * b) * ib * id;
    ModMulLeft(a * ib, d * id, 1, P);
    ModMulLeft(c * id, b * ib, 1, P);
  }
}
