/** Finite sums and integer polynomials, with the facts the sharing proofs
    use: evaluation is linear, multiplying by (z - a) is the in-place update
    of utils.cpp, and a polynomial with at most n coefficients that vanishes
    modulo P at n distinct nodes vanishes everywhere. */
module Poly {
  import opened Arith
  import opened Modulus

  // ---------------------------------------------------------------------
  // Finite sums

  /** f(0) + ... + f(n - 1). */
  ghost function Sum(n: nat, f: nat -> int): int
  {
    if n == 0 then 0 else Sum(n - 1, f) + f(n - 1)
  }

  lemma {:induction false} SumExt(n: nat, f: nat -> int, g: nat -> int)
    requires forall i: nat :: i < n ==> f(i) == g(i)
    ensures Sum(n, f) == Sum(n, g)
  {
    if n > 0 {
      SumExt(n - 1, f, g);
    }
  }

  lemma {:induction false} SumCong(n: nat, f: nat -> int, g: nat -> int)
    requires forall i: nat :: i < n ==> f(i) % P == g(i) % P
    ensures Sum(n, f) % P == Sum(n, g) % P
  {
    if n > 0 {
      SumCong(n - 1, f, g);
      ModAdd(Sum(n - 1, f), f(n - 1), P);
      ModAdd(Sum(n - 1, g), g(n - 1), P);
    }
  }

  lemma {:induction false} SumAdd(n: nat, f: nat -> int, g: nat -> int, h: nat -> int)
    requires forall i: nat :: i < n ==> h(i) == f(i) + g(i)
    ensures Sum(n, h) == Sum(n, f) + Sum(n, g)
  {
    if n > 0 {
      SumAdd(n - 1, f, g, h);
    }
  }

  lemma {:induction false} SumScale(n: nat, f: nat -> int, s: int, h: nat -> int)
    requires forall i: nat :: i < n ==> h(i) == s * f(i)
    ensures Sum(n, h) == s * Sum(n, f)
  {
    if n > 0 {
      SumScale(n - 1, f, s, h);
    }
  }

  /** A sum whose terms all vanish modulo P except the r-th. */
  lemma {:induction false} SumSingle(n: nat, f: nat -> int, r: nat)
    requires r < n
    requires forall i: nat :: i < n && i != r ==> f(i) % P == 0
    ensures Sum(n, f) % P == f(r) % P
  {
    if n - 1 == r {
      SumZero(n - 1, f);
    } else {
      SumSingle(n - 1, f, r);
    }
    ModAdd(Sum(n - 1, f), f(n - 1), P);
  }

  lemma {:induction false} SumZero(n: nat, f: nat -> int)
    requires forall i: nat :: i < n ==> f(i) % P == 0
    ensures Sum(n, f) % P == 0
  {
    if n > 0 {
      SumZero(n - 1, f);
      ModAdd(Sum(n - 1, f), f(n - 1), P);
    }
  }

  /** The two orders of a double sum agree. */
  lemma {:induction false} SumSwap(n: nat, m: nat, f: (nat, nat) -> int)
    ensures Sum(n, (i: nat) => Sum(m, (k: nat) => f(i, k))) == Sum(m, (k: nat) => Sum(n, (i: nat) => f(i, k)))
  {
    if n > 0 {
      SumSwap(n - 1, m, f);
      var inner := (k: nat) => Sum(n - 1, (i: nat) => f(i, k));
      var last := (k: nat) => f(n - 1, k);
      var whole := (k: nat) => Sum(n, (i: nat) => f(i, k));
      SumAdd(m, inner, last, whole);
    } else {
      var whole := (k: nat) => Sum(n, (i: nat) => f(i, k));
      SumOfZeros(m, whole);
    }
  }

  lemma {:induction false} SumOfZeros(n: nat, f: nat -> int)
    requires forall i: nat :: i < n ==> f(i) == 0
    ensures Sum(n, f) == 0
  {
    if n > 0 {
      SumOfZeros(n - 1, f);
    }
  }

  /** The terms f(0) + ... + f(n) with the first one split off. */
  lemma {:induction false} SumShift(n: nat, f: nat -> int, g: nat -> int)
    requires forall i: nat :: g(i) == f(i + 1)
    ensures Sum(n + 1, f) == f(0) + Sum(n, g)
  {
    if n > 0 {
      SumShift(n - 1, f, g);
    }
  }

  // ---------------------------------------------------------------------
  // Polynomials: c[k] is the coefficient of z^k

  /** Horner evaluation over the integers. */
  ghost function Eval(c: seq<int>, z: int): int
  {
    if |c| == 0 then 0 else c[0] + z * Eval(c[1..], z)
  }

  /** The k-th term c[k] * z^k, zero beyond the last coefficient. */
  ghost function Term(c: seq<int>, z: int): nat -> int
  {
    (k: nat) => if k < |c| then c[k] * Exp(z, k) else 0
  }

  /** Appending a top coefficient adds one power term. */
  lemma {:induction false} EvalSnoc(c: seq<int>, d: int, z: int)
    ensures Eval(c + [d], z) == Eval(c, z) + d * Exp(z, |c|)
  {
    if |c| > 0 {
      var t := c[1..];
      assert (c + [d])[1..] == t + [d];
      EvalSnoc(t, d, z);
      var a, e := Eval(t, z), Exp(z, |t|);
      assert Eval(c + [d], z) == c[0] + z * (a + d * e);
      assert Exp(z, |c|) == z * e;
      DistributeTerm(z, a, d, e);
    }
  }

  lemma DistributeTerm(z: int, a: int, d: int, e: int)
    ensures z * (a + d * e) == z * a + d * (z * e)
  {
    MulAssoc(z, d, e);
    MulAssoc(d, z, e);
    assert z * d == d * z;
  }

  /** Horner evaluation is the sum of the power terms. */
  lemma {:induction false} EvalAsSum(c: seq<int>, z: int)
    ensures Eval(c, z) == Sum(|c|, Term(c, z))
    decreases |c|
  {
    if |c| > 0 {
      var init := c[..|c| - 1];
      assert c == init + [c[|c| - 1]];
      EvalSnoc(init, c[|c| - 1], z);
      EvalAsSum(init, z);
      SumExt(|init|, Term(init, z), Term(c, z));
    }
  }

  lemma {:induction false} EvalCong(a: seq<int>, b: seq<int>, z: int)
    requires |a| == |b|
    requires forall k :: 0 <= k < |a| ==> a[k] % P == b[k] % P
    ensures Eval(a, z) % P == Eval(b, z) % P
  {
    if |a| > 0 {
      EvalCong(a[1..], b[1..], z);
      ModMulLeft(z, Eval(a[1..], z), Eval(b[1..], z), P);
      ModAdd(a[0], z * Eval(a[1..], z), P);
      ModAdd(b[0], z * Eval(b[1..], z), P);
    }
  }

  /** The coefficient at k, or 0 past the end. */
  function Get(c: seq<int>, k: nat): int
  {
    if k < |c| then c[k] else 0
  }

  /** Coefficient-wise sum. */
  function Add(a: seq<int>, b: seq<int>): (r: seq<int>)
    ensures |r| == if |a| < |b| then |b| else |a|
    ensures forall k :: 0 <= k < |r| ==> r[k] == Get(a, k) + Get(b, k)
  {
    if |a| == 0 then b
    else if |b| == 0 then a
    else [a[0] + b[0]] + Add(a[1..], b[1..])
  }

  function Scale(c: seq<int>, s: int): (r: seq<int>)
    ensures |r| == |c|
    ensures forall k :: 0 <= k < |r| ==> r[k] == s * c[k]
  {
    if |c| == 0 then [] else [s * c[0]] + Scale(c[1..], s)
  }

  lemma {:induction false} EvalAdd(a: seq<int>, b: seq<int>, z: int)
    ensures Eval(Add(a, b), z) == Eval(a, z) + Eval(b, z)
  {
    if |a| > 0 && |b| > 0 {
      var t := Add(a[1..], b[1..]);
      EvalAdd(a[1..], b[1..], z);
      assert Add(a, b) == [a[0] + b[0]] + t;
      assert ([a[0] + b[0]] + t)[1..] == t;
      assert Eval(Add(a, b), z) == a[0] + b[0] + z * Eval(t, z);
      LeftDistrib(z, Eval(a[1..], z), Eval(b[1..], z));
    }
  }


  lemma {:induction false} EvalScale(c: seq<int>, s: int, z: int)
    ensures Eval(Scale(c, s), z) == s * Eval(c, z)
  {
    if |c| > 0 {
      var t := Scale(c[1..], s);
      EvalScale(c[1..], s, z);
      assert Scale(c, s) == [s * c[0]] + t;
      assert ([s * c[0]] + t)[1..] == t;
      ScaleStep(s, c[0], z, Eval(c[1..], z));
    }
  }

  lemma ScaleStep(s: int, c0: int, z: int, e: int)
    ensures s * c0 + z * (s * e) == s * (c0 + z * e)
  {
    MulAssoc(z, s, e);
    MulAssoc(s, z, e);
    assert z * s == s * z;
  }

  /** The coefficients of (z - a) * c(z). */
  function MulLinear(c: seq<int>, a: int): (r: seq<int>)
    ensures |r| == |c| + 1
  {
    Add([0] + c, Scale(c, -a))
  }

  /** MulLinear coefficient by coefficient, the form the in-place update uses. */
  lemma MulLinearAt(c: seq<int>, a: int, k: nat)
    requires k <= |c|
    ensures MulLinear(c, a)[k] == (if k == 0 then 0 else c[k - 1]) - (if k < |c| then a * c[k] else 0)
  {
  }

  lemma EvalMulLinear(c: seq<int>, a: int, z: int)
    ensures Eval(MulLinear(c, a), z) == (z - a) * Eval(c, z)
  {
    EvalAdd([0] + c, Scale(c, -a), z);
    EvalScale(c, -a, z);
    assert ([0] + c)[1..] == c;
    assert Eval([0] + c, z) == z * Eval(c, z);
    FactorOut(z, a, Eval(c, z));
  }

  lemma FactorOut(z: int, a: int, e: int)
    ensures z * e + (-a) * e == (z - a) * e
  {
  }

  /** (z - ns[0]) * ... * (z - ns[|ns| - 1]). */
  ghost function NodeProd(ns: seq<int>, z: int): int
  {
    if |ns| == 0 then 1 else NodeProd(ns[..|ns| - 1], z) * (z - ns[|ns| - 1])
  }

  lemma NodeProdSnoc(ns: seq<int>, v: int, z: int)
    ensures NodeProd(ns + [v], z) == NodeProd(ns, z) * (z - v)
  {
    assert (ns + [v])[..|ns|] == ns;
  }

  /** The coefficients of NodeProd(ns, .), built one factor at a time. */
  function ProdLinear(ns: seq<int>): (r: seq<int>)
    ensures |r| == |ns| + 1
  {
    if |ns| == 0 then [1] else MulLinear(ProdLinear(ns[..|ns| - 1]), ns[|ns| - 1])
  }

  lemma {:induction false} EvalProdLinear(ns: seq<int>, z: int)
    ensures Eval(ProdLinear(ns), z) == NodeProd(ns, z)
  {
    if |ns| > 0 {
      EvalProdLinear(ns[..|ns| - 1], z);
      EvalMulLinear(ProdLinear(ns[..|ns| - 1]), ns[|ns| - 1], z);
    }
  }

  /** A node of ns is a root of NodeProd(ns, .). */
  lemma {:induction false} NodeProdRoot(ns: seq<int>, j: nat)
    requires j < |ns|
    ensures NodeProd(ns, ns[j]) == 0
  {
    if j < |ns| - 1 {
      NodeProdRoot(ns[..|ns| - 1], j);
    }
  }

  /** Away from the nodes modulo P, NodeProd is non-zero modulo P. */
  lemma {:induction false} NodeProdNonzero(ns: seq<int>, z: int)
    requires forall j :: 0 <= j < |ns| ==> (z - ns[j]) % P != 0
    ensures NodeProd(ns, z) % P != 0
  {
    if |ns| > 0 {
      NodeProdNonzero(ns[..|ns| - 1], z);
      var a, b := NodeProd(ns[..|ns| - 1], z), z - ns[|ns| - 1];
      if (a * b) % P == 0 {
        NoZeroDivisors(a, b);
      }
    }
  }

  /** Synthetic division: c(z) - c(a) == (z - a) * Quot(c, a)(z). */
  ghost function Quot(c: seq<int>, a: int): seq<int>
  {
    if |c| <= 1 then [] else Add(c[1..], Scale(Quot(c[1..], a), a))
  }

  lemma {:induction false} QuotLength(c: seq<int>, a: int)
    ensures |Quot(c, a)| == if |c| == 0 then 0 else |c| - 1
  {
    if |c| > 1 {
      QuotLength(c[1..], a);
    }
  }

  lemma {:induction false} EvalQuot(c: seq<int>, a: int, z: int)
    ensures Eval(c, z) - Eval(c, a) == (z - a) * Eval(Quot(c, a), z)
  {
    if |c| == 1 {
      assert c[1..] == [];
    } else if |c| > 1 {
      var t := c[1..];
      var q := Quot(t, a);
      EvalQuot(t, a, z);
      EvalAdd(t, Scale(q, a), z);
      EvalScale(q, a, z);
      assert Quot(c, a) == Add(t, Scale(q, a));
      QuotStep(c[0], z, a, Eval(t, z), Eval(t, a), Eval(q, z), Eval(c, z), Eval(c, a), Eval(Quot(c, a), z));
    }
  }

  /** The algebra of one synthetic-division step, on plain numbers. */
  lemma QuotStep(c0: int, z: int, a: int, tz: int, ta: int, qz: int, ez: int, ea: int, qq: int)
    requires tz - ta == (z - a) * qz
    requires ez == c0 + z * tz && ea == c0 + a * ta && qq == tz + a * qz
    ensures ez - ea == (z - a) * qq
  {
    LeftDistrib(z - a, tz, a * qz);
    Swap3(z - a, a, qz);
    assert a * ((z - a) * qz) == a * (tz - ta);
    SubDistribLeft(a, tz, ta);
    SubDistribRight(z, a, tz);
  }

  lemma SubDistribRight(z: int, a: int, x: int)
    ensures (z - a) * x == z * x - a * x
  {
  }

  /** The nodes are pairwise distinct modulo P. */
  ghost predicate DistinctMod(ns: seq<int>)
  {
    forall i, j :: 0 <= i < j < |ns| ==> (ns[i] - ns[j]) % P != 0
  }

  /** A polynomial with at most |ns| coefficients that vanishes modulo P at
      |ns| distinct nodes vanishes modulo P everywhere. */
  lemma {:induction false} RootCount(c: seq<int>, ns: seq<int>, z: int)
    requires |c| <= |ns| && DistinctMod(ns)
    requires forall j :: 0 <= j < |ns| ==> Eval(c, ns[j]) % P == 0
    ensures Eval(c, z) % P == 0
    decreases |ns|
  {
    if |c| > 0 {
      var a := ns[|ns| - 1];
      var rest := ns[..|ns| - 1];
      QuotLength(c, a);
      assert Eval(c, a) % P == 0 by { assert a == ns[|ns| - 1]; }
      forall j | 0 <= j < |rest|
        ensures Eval(Quot(c, a), rest[j]) % P == 0
      {
        assert rest[j] == ns[j];
        assert (rest[j] - a) % P != 0;
        QuotRoot(c, a, rest[j]);
      }
      RootCount(Quot(c, a), rest, z);
      EvalQuot(c, a, z);
      QuotVanishes(Eval(c, z), Eval(c, a), z, a, Eval(Quot(c, a), z));
    }
  }

  /** A root of c other than a, modulo P, is a root of the quotient by (z - a). */
  lemma QuotRoot(c: seq<int>, a: int, r: int)
    requires Eval(c, r) % P == 0 && Eval(c, a) % P == 0 && (r - a) % P != 0
    ensures Eval(Quot(c, a), r) % P == 0
  {
    EvalQuot(c, a, r);
    RootStep(Eval(c, r), Eval(c, a), r, a, Eval(Quot(c, a), r));
  }

  lemma RootStep(er: int, ea: int, r: int, a: int, qr: int)
    requires er - ea == (r - a) * qr && er % P == 0 && ea % P == 0 && (r - a) % P != 0
    ensures qr % P == 0
  {
    DivisibleDiff(er, ea);
    NoZeroDivisors(r - a, qr);
  }

  lemma QuotVanishes(ez: int, ea: int, z: int, a: int, qz: int)
    requires ez - ea == (z - a) * qz && ea % P == 0 && qz % P == 0
    ensures ez % P == 0
  {
    ModMulLeft(z - a, qz, 0, P);
    DivisibleSum(ea, (z - a) * qz);
  }

  lemma DivisibleDiff(x: int, y: int)
    requires x % P == 0 && y % P == 0
    ensures (x - y) % P == 0
  {
    ModSub(x, y, P);
  }

  lemma DivisibleSum(x: int, y: int)
    requires x % P == 0 && y % P == 0
    ensures (x + y) % P == 0
  {
    ModAdd(x, y, P);
  }
}
