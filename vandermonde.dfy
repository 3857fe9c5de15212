/** utils.cpp vandermond_mat_inv_row: the first row of the inverse of the
    n x n Vandermonde matrix V[r][c] == (r + 1)^c modulo P, by Gauss-Jordan
    elimination in place on the augmented matrix [V | I]. */
module Vandermonde {
  import opened Arith
  import opened Modulus
  import opened Field
  import opened Poly
  import opened Lagrange
  import opened Shamir

  // ---------------------------------------------------------------------
  // Rows of the augmented matrix as values

  /** The right half of an augmented row: its coefficient for row r of V. */
  ghost function Right(row: seq<int>, n: nat): nat -> int
  {
    (r: nat) => if n + r < |row| then row[n + r] else 0
  }

  /** An augmented row [a | u] with a == u * V modulo P: the left half is
      the combination of the rows of V that the right half records. */
  ghost predicate Consistent(row: seq<int>, n: nat)
  {
    |row| == 2 * n && forall c: nat :: c < n ==> row[c] % P == PowerSum(n, Right(row, n), c) % P
  }

  /** n rows of 2 * n entries, every entry a residue. */
  ghost predicate Bounded(s: seq<seq<nat>>, n: nat)
  {
    && |s| == n
    && (forall j :: 0 <= j < n ==> |s[j]| == 2 * n)
    && (forall j, k :: 0 <= j < n && 0 <= k < 2 * n ==> s[j][k] < P)
  }

  /** Every row keeps left == right * V modulo P. */
  ghost predicate AllConsistent(s: seq<seq<nat>>, n: nat)
    requires |s| == n
  {
    forall j :: 0 <= j < n ==> Consistent(s[j], n)
  }

  /** Columns 0..i-1 are eliminated: zero off the diagonal, non-zero on it. */
  ghost predicate Cleared(s: seq<seq<nat>>, n: nat, i: nat)
    requires Bounded(s, n) && i <= n
  {
    forall j, c :: 0 <= j < n && 0 <= c < i ==> (s[j][c] == 0 <==> j != c)
  }

  /** The right-hand columns i..n-1 are still those of the identity. */
  ghost predicate IdentityFrom(s: seq<seq<nat>>, n: nat, i: nat)
    requires Bounded(s, n)
  {
    forall j, k :: 0 <= j < n && n + i <= k < 2 * n ==> s[j][k] == if k - n == j then 1 else 0
  }

  /** The state of the augmented matrix before column i is eliminated. */
  ghost predicate Stage(s: seq<seq<nat>>, n: nat, i: nat)
  {
    && Bounded(s, n) && i <= n
    && AllConsistent(s, n)
    && Cleared(s, n, i)
    && IdentityFrom(s, n, i)
  }

  /** Row j minus t times row i, reduced: the update of the elimination. */
  ghost function Eliminated(a: seq<nat>, b: seq<nat>, t: nat): (r: seq<nat>)
    requires |a| == |b|
    ensures |r| == |a|
  {
    seq(|a|, k requires 0 <= k < |a| => (P + a[k] - (b[k] * t) % P) % P)
  }

  /** Row i times inv, reduced: the update of the normalisation. */
  ghost function Scaled(a: seq<nat>, inv: nat): (r: seq<nat>)
    ensures |r| == |a|
  {
    seq(|a|, k requires 0 <= k < |a| => (a[k] * inv) % P)
  }

  /** The augmented matrix [V | I] the elimination starts from. */
  ghost function Initial(n: nat, j: nat, k: nat): nat
  {
    if k < n then Exp(j + 1, k) % P else if k - n == j then 1 else 0
  }

  // ---------------------------------------------------------------------
  // Row operations keep left == right * V

  /** The reduced update agrees with a - t * b modulo P. */
  lemma EliminatedEntry(x: nat, y: nat, t: nat, e: int)
    requires x < P
    ensures ((P + x - (y * t) % P) % P) % P == (x - t * y) % P
    ensures (((P + x - (y * t) % P) % P) * e) % P == (x * e + -(t as int) * (y * e)) % P
  {
    var v := (P + x - (y * t) % P) % P;
    EliminatedResidue(x, y, t);
    ModMulRight(v, x - t * y, e, P);
    Expand(x, y, t, e);
  }

  /** The reduced update is congruent to x - t * y. */
  lemma EliminatedResidue(x: nat, y: nat, t: nat)
    ensures ((P + x - (y * t) % P) % P) % P == (x - t * y) % P
  {
    ModOfMod(P + x - (y * t) % P, P);
    ModSubResidue(x, y * t, P);
    assert y * t == t * y;
  }

  lemma Expand(x: int, y: int, t: int, e: int)
    ensures (x - t * y) * e == x * e + -t * (y * e)
  {
    assert (x - t * y) * e == x * e - (t * y) * e;
    MulAssoc(t, y, e);
  }

  lemma EliminatedConsistent(a: seq<nat>, b: seq<nat>, t: nat, n: nat)
    requires Consistent(a, n) && Consistent(b, n)
    requires forall k :: 0 <= k < |a| ==> a[k] < P
    ensures Consistent(Eliminated(a, b, t), n)
  {
    var e := Eliminated(a, b, t);
    forall c: nat | c < n
      ensures e[c] % P == PowerSum(n, Right(e, n), c) % P
    {
      EliminatedColumn(a, b, t, n, c);
    }
  }

  lemma EliminatedColumn(a: seq<nat>, b: seq<nat>, t: nat, n: nat, c: nat)
    requires Consistent(a, n) && Consistent(b, n) && c < n
    requires forall k :: 0 <= k < |a| ==> a[k] < P
    ensures Eliminated(a, b, t)[c] % P == PowerSum(n, Right(Eliminated(a, b, t), n), c) % P
  {
    EliminatedPowerSum(a, b, t, n, c);
    EliminatedResidue(a[c], b[c], t);
    assert Eliminated(a, b, t)[c] == (P + a[c] - (b[c] * t) % P) % P;
    SubCong(Eliminated(a, b, t)[c], PowerSum(n, Right(Eliminated(a, b, t), n), c),
      a[c], b[c], PowerSum(n, Right(a, n), c), PowerSum(n, Right(b, n), c), t);
  }

  /** x - t * y modulo P depends only on the residues of x and y. */
  lemma SubCong(u: int, u': int, x: int, y: int, x': int, y': int, t: int)
    requires u % P == (x - t * y) % P && u' % P == (x' - t * y') % P
    requires x % P == x' % P && y % P == y' % P
    ensures u % P == u' % P
  {
    ModMulLeft(t, y, y', P);
    ModSub(x, t * y, P);
    ModSub(x', t * y', P);
  }

  lemma EliminatedPowerSum(a: seq<nat>, b: seq<nat>, t: nat, n: nat, c: nat)
    requires |a| == |b| == 2 * n && c < n
    requires forall k :: 0 <= k < |a| ==> a[k] < P
    ensures PowerSum(n, Right(Eliminated(a, b, t), n), c) % P
      == (PowerSum(n, Right(a, n), c) - t * PowerSum(n, Right(b, n), c)) % P
  {
    var ua, ub, ue := Right(a, n), Right(b, n), Right(Eliminated(a, b, t), n);
    var fa := (r: nat) => ua(r) * Exp(r + 1, c);
    var fb := (r: nat) => ub(r) * Exp(r + 1, c);
    var fe := (r: nat) => ue(r) * Exp(r + 1, c);
    forall r: nat | r < n
      ensures fe(r) % P == (fa(r) + -(t as int) * fb(r)) % P
    {
      EliminatedTerm(a, b, t, n, c, r);
    }
    LinearSum(n, fe, fa, fb, t);
    assert PowerSum(n, ue, c) == Sum(n, fe);
    assert PowerSum(n, ua, c) == Sum(n, fa);
    assert PowerSum(n, ub, c) == Sum(n, fb);
  }

  /** Termwise fe == fa - t * fb modulo P carries over to the sums. */
  lemma LinearSum(n: nat, fe: nat -> int, fa: nat -> int, fb: nat -> int, t: int)
    requires forall r: nat :: r < n ==> fe(r) % P == (fa(r) + -t * fb(r)) % P
    ensures Sum(n, fe) % P == (Sum(n, fa) - t * Sum(n, fb)) % P
  {
    var mb := (r: nat) => -t * fb(r);
    var h := (r: nat) => fa(r) + mb(r);
    SumCong(n, fe, h);
    SumAdd(n, fa, mb, h);
    SumScale(n, fb, -t, mb);
  }

  lemma EliminatedTerm(a: seq<nat>, b: seq<nat>, t: nat, n: nat, c: nat, r: nat)
    requires |a| == |b| == 2 * n && r < n
    requires forall k :: 0 <= k < |a| ==> a[k] < P
    ensures (Right(Eliminated(a, b, t), n)(r) * Exp(r + 1, c)) % P
      == (Right(a, n)(r) * Exp(r + 1, c) + -(t as int) * (Right(b, n)(r) * Exp(r + 1, c))) % P
  {
    var x, y := a[n + r], b[n + r];
    assert Right(Eliminated(a, b, t), n)(r) == (P + x - (y * t) % P) % P;
    assert Right(a, n)(r) == x && Right(b, n)(r) == y;
    EliminatedEntry(x, y, t, Exp(r + 1, c));
  }

  lemma ScaledConsistent(a: seq<nat>, inv: nat, n: nat)
    requires Consistent(a, n)
    ensures Consistent(Scaled(a, inv), n)
  {
    var e := Scaled(a, inv);
    forall c: nat | c < n
      ensures e[c] % P == PowerSum(n, Right(e, n), c) % P
    {
      var s := PowerSum(n, Right(a, n), c);
      ScaledPowerSum(a, inv, n, c);
      assert e[c] == (a[c] * inv) % P;
      ModOfMod(a[c] * inv, P);
      ModMulLeft(inv, a[c], s, P);
      assert a[c] * inv == inv * a[c];
    }
  }

  /** Scaling a row scales the combination its right half records. */
  lemma ScaledPowerSum(a: seq<nat>, inv: nat, n: nat, c: nat)
    requires |a| == 2 * n
    ensures PowerSum(n, Right(Scaled(a, inv), n), c) % P == (inv * PowerSum(n, Right(a, n), c)) % P
  {
    var ua, ue := Right(a, n), Right(Scaled(a, inv), n);
    var fa := (r: nat) => ua(r) * Exp(r + 1, c);
    var h := (r: nat) => inv * fa(r);
    var fe := (r: nat) => ue(r) * Exp(r + 1, c);
    forall r: nat | r < n
      ensures fe(r) % P == h(r) % P
    {
      ScaledTerm(a, inv, n, r, c);
    }
    SumCong(n, fe, h);
    SumScale(n, fa, inv, h);
    assert PowerSum(n, ue, c) == Sum(n, fe);
    assert PowerSum(n, ua, c) == Sum(n, fa);
  }

  lemma ScaledTerm(a: seq<nat>, inv: nat, n: nat, r: nat, c: nat)
    requires |a| == 2 * n && r < n
    ensures (Right(Scaled(a, inv), n)(r) * Exp(r + 1, c)) % P == (inv * (Right(a, n)(r) * Exp(r + 1, c))) % P
  {
    var x, q := a[n + r], Exp(r + 1, c);
    assert Right(Scaled(a, inv), n)(r) == (x * inv) % P;
    assert Right(a, n)(r) == x;
    ModOfMod(x * inv, P);
    ModMulRight((x * inv) % P, x * inv, q, P);
    MulAssoc(inv, x, q);
    assert x * inv == inv * x;
  }

  // ---------------------------------------------------------------------
  // The stages of the elimination

  /** [V | I] satisfies the invariant of the elimination before column 0. */
  lemma InitialStage(s: seq<seq<nat>>, n: nat)
    requires |s| == n && forall j :: 0 <= j < n ==> |s[j]| == 2 * n
    requires forall j, k :: 0 <= j < n && 0 <= k < 2 * n ==> s[j][k] == Initial(n, j, k)
    ensures Stage(s, n, 0)
  {
    forall j | 0 <= j < n
      ensures Consistent(s[j], n)
    {
      forall c: nat | c < n
        ensures s[j][c] % P == PowerSum(n, Right(s[j], n), c) % P
      {
        InitialColumn(s[j], n, j, c);
      }
    }
  }

  lemma InitialColumn(row: seq<nat>, n: nat, j: nat, c: nat)
    requires |row| == 2 * n && j < n && c < n
    requires forall k :: 0 <= k < 2 * n ==> row[k] == Initial(n, j, k)
    ensures row[c] % P == PowerSum(n, Right(row, n), c) % P
  {
    var u := Right(row, n);
    var f := (r: nat) => u(r) * Exp(r + 1, c);
    forall r: nat | r < n && r != j
      ensures f(r) % P == 0
    {
      assert u(r) == row[n + r] == 0;
    }
    assert u(j) == row[n + j] == 1;
    SumSingle(n, f, j);
    assert PowerSum(n, u, c) == Sum(n, f);
    ModOfMod(Exp(j + 1, c), P);
  }

  /** The pivot of column i is non-zero: otherwise row i would give weights
      u, with u[i] == 1 and u[r] == 0 for r > i, that annihilate the powers
      0..i of the nodes, so also the polynomial prod_{r < i} (z - (r + 1)),
      which vanishes at every node below i + 1 and not at i + 1. */
  lemma PivotNonzero(s: seq<seq<nat>>, n: nat, i: nat)
    requires Stage(s, n, i) && i < n <= P
    ensures s[i][i] != 0
  {
    if s[i][i] == 0 {
      var u := Right(s[i], n);
      var q := ProdLinear(Others(i, i));
      PivotRowAnnihilates(s, n, i);
      Annihilate(n, u, q);
      forall r: nat | i < r < n
        ensures u(r) == 0
      {
        assert s[i][n + r] == 0;
      }
      assert u(i) == s[i][n + i] == 1;
      PivotRowSurvives(n, u, i);
      assert false;
    }
  }

  lemma OtherTermVanishes(n: nat, u: nat -> int, i: nat, r: nat)
    requires i < n && r < n && r != i
    requires forall r: nat :: i < r < n ==> u(r) == 0
    ensures u(r) * Eval(ProdLinear(Others(i, i)), r + 1) == 0
  {
    if r < i {
      EvalProdLinear(Others(i, i), r + 1);
      OthersVanish(i, i, r);
      assert Eval(ProdLinear(Others(i, i)), r + 1) == 0;
    } else {
      assert u(r) == 0;
    }
  }

  /** A pivot row with a zero pivot annihilates the powers 0..i of the nodes. */
  lemma PivotRowAnnihilates(s: seq<seq<nat>>, n: nat, i: nat)
    requires Stage(s, n, i) && i < n && s[i][i] == 0
    ensures forall k: nat :: k < i + 1 ==> PowerSum(n, Right(s[i], n), k) % P == 0
  {
    forall k: nat | k < i + 1
      ensures PowerSum(n, Right(s[i], n), k) % P == 0
    {
      assert Consistent(s[i], n);
      assert s[i][k] == 0;
    }
  }

  /** The product of (z - x) over the nodes 1..i is zero at each of them and
      not at i + 1, so weights that are 1 at i and 0 above i do not
      annihilate it. */
  lemma PivotRowSurvives(n: nat, u: nat -> int, i: nat)
    requires i < n <= P && u(i) == 1
    requires forall r: nat :: i < r < n ==> u(r) == 0
    ensures Sum(n, (r: nat) => u(r) * Eval(ProdLinear(Others(i, i)), r + 1)) % P != 0
  {
    var ns := Others(i, i);
    var q := ProdLinear(ns);
    var f := (r: nat) => u(r) * Eval(q, r + 1);
    forall r: nat | r < n && r != i
      ensures f(r) % P == 0
    {
      OtherTermVanishes(n, u, i, r);
    }
    SumSingle(n, f, i);
    EvalProdLinear(ns, i + 1);
    OthersNonzero(i, i);
    assert f(i) == Eval(q, i + 1);
  }

  /** The invariant while column i is eliminated from rows 0..j-1, with inv
      the inverse of the pivot. */
  ghost predicate Working(s: seq<seq<nat>>, n: nat, i: nat, j: nat, inv: nat)
  {
    && Bounded(s, n) && i < n && j <= n
    && AllConsistent(s, n)
    && Cleared(s, n, i)
    && IdentityFrom(s, n, i + 1)
    && s[i][i] != 0 && (s[i][i] * inv) % P == 1
    && (forall r :: 0 <= r < j && r != i ==> s[r][i] == 0)
  }

  lemma StartWorking(s: seq<seq<nat>>, n: nat, i: nat, inv: nat)
    requires Stage(s, n, i) && i < n
    requires s[i][i] != 0 && (s[i][i] * inv) % P == 1
    ensures Working(s, n, i, 0, inv)
  {
  }

  /** An update by a row that is zero in column k leaves column k alone. */
  lemma EntryKept(x: nat, t: nat)
    requires x < P
    ensures (P + x - (0 * t) % P) % P == x
  {
  }

  /** The update clears column i of row j. */
  lemma EntryCleared(x: nat, pivot: nat, inv: nat)
    requires x < P && (pivot * inv) % P == 1
    ensures (P + x - (pivot * ((x * inv) % P)) % P) % P == 0
  {
    var t := (x * inv) % P;
    ModOfMod(x * inv, P);
    ModMulLeft(pivot, t, x * inv, P);
    Swap3(pivot, x, inv);
    ModMulLeft(x, pivot * inv, 1, P);
    SmallMod(x, P);
    assert (pivot * t) % P == x;
    DivModUnique(P, P, 1, 0);
  }

  lemma WorkingStep(s: seq<seq<nat>>, n: nat, i: nat, j: nat, inv: nat)
    requires Working(s, n, i, j, inv) && j < n && j != i
    ensures Working(s[j := Eliminated(s[j], s[i], (s[j][i] * inv) % P)], n, i, j + 1, inv)
  {
    var t := (s[j][i] * inv) % P;
    var e := Eliminated(s[j], s[i], t);
    EliminatedConsistent(s[j], s[i], t, n);
    EliminatedKeeps(s, n, i, j, t);
    PivotColumnCleared(s[j], s[i], inv, i);
    WorkingReplace(s, n, i, j, inv, e);
  }

  lemma PivotColumnCleared(a: seq<nat>, b: seq<nat>, inv: nat, i: nat)
    requires |a| == |b| && i < |a| && a[i] < P && (b[i] * inv) % P == 1
    ensures Eliminated(a, b, (a[i] * inv) % P)[i] == 0
  {
    EntryCleared(a[i], b[i], inv);
  }

  /** Outside the pivot row's live columns the update keeps row j. */
  lemma EliminatedKeeps(s: seq<seq<nat>>, n: nat, i: nat, j: nat, t: nat)
    requires Bounded(s, n) && i < n && j < n
    requires IdentityFrom(s, n, i + 1) && Cleared(s, n, i) && s[i][i] != 0
    ensures forall k :: 0 <= k < 2 * n ==> Eliminated(s[j], s[i], t)[k] < P
    ensures forall k :: 0 <= k < 2 * n && (k < i || n + i + 1 <= k) ==> Eliminated(s[j], s[i], t)[k] == s[j][k]
  {
    var e := Eliminated(s[j], s[i], t);
    forall k | 0 <= k < 2 * n && (k < i || n + i + 1 <= k)
      ensures e[k] == s[j][k]
    {
      assert s[i][k] == 0;
      EntryKept(s[j][k], t);
    }
  }

  /** Replacing row j by a consistent row that agrees with it outside the
      live columns and clears column i advances the sweep of column i. */
  lemma WorkingReplace(s: seq<seq<nat>>, n: nat, i: nat, j: nat, inv: nat, e: seq<nat>)
    requires Working(s, n, i, j, inv) && j < n && j != i
    requires |e| == 2 * n && Consistent(e, n) && e[i] == 0
    requires forall k :: 0 <= k < 2 * n ==> e[k] < P
    requires forall k :: 0 <= k < 2 * n && (k < i || n + i + 1 <= k) ==> e[k] == s[j][k]
    ensures Working(s[j := e], n, i, j + 1, inv)
  {
    var s' := s[j := e];
    assert Bounded(s', n);
    assert AllConsistent(s', n);
    ClearedReplace(s, n, i, j, e);
    IdentityReplace(s, n, i, j, e);
  }

  lemma ClearedReplace(s: seq<seq<nat>>, n: nat, i: nat, j: nat, e: seq<nat>)
    requires Bounded(s, n) && i < n && j < n && Cleared(s, n, i)
    requires |e| == 2 * n && (forall k :: 0 <= k < 2 * n ==> e[k] < P)
    requires forall k :: 0 <= k < i ==> e[k] == s[j][k]
    ensures Bounded(s[j := e], n) && Cleared(s[j := e], n, i)
  {
  }

  lemma IdentityReplace(s: seq<seq<nat>>, n: nat, i: nat, j: nat, e: seq<nat>)
    requires Bounded(s, n) && i < n && j < n && IdentityFrom(s, n, i + 1)
    requires |e| == 2 * n && (forall k :: 0 <= k < 2 * n ==> e[k] < P)
    requires forall k :: n + i + 1 <= k < 2 * n ==> e[k] == s[j][k]
    ensures Bounded(s[j := e], n) && IdentityFrom(s[j := e], n, i + 1)
  {
  }

  lemma WorkingSkip(s: seq<seq<nat>>, n: nat, i: nat, inv: nat)
    requires Working(s, n, i, i, inv)
    ensures Working(s, n, i, i + 1, inv)
  {
  }

  lemma FinishWorking(s: seq<seq<nat>>, n: nat, i: nat, inv: nat)
    requires Working(s, n, i, n, inv)
    ensures Stage(s, n, i + 1)
  {
  }

  /** The invariant of the normalisation: columns 0..n-1 are diagonal and
      rows 0..i-1 carry a 1 on the diagonal. */
  ghost predicate Normal(s: seq<seq<nat>>, n: nat, i: nat)
  {
    && Bounded(s, n) && i <= n
    && AllConsistent(s, n)
    && Cleared(s, n, n)
    && (forall j :: 0 <= j < i ==> s[j][j] == 1)
  }

  lemma StartNormal(s: seq<seq<nat>>, n: nat)
    requires Stage(s, n, n)
    ensures Normal(s, n, 0)
  {
  }

  lemma NormalStep(s: seq<seq<nat>>, n: nat, i: nat, inv: nat)
    requires Normal(s, n, i) && i < n && (s[i][i] * inv) % P == 1
    ensures Normal(s[i := Scaled(s[i], inv)], n, i + 1)
  {
    var e := Scaled(s[i], inv);
    ScaledConsistent(s[i], inv, n);
    forall c | 0 <= c < n && c != i
      ensures e[c] == 0
    {
      assert s[i][c] == 0;
    }
    assert e[i] == 1;
    var s' := s[i := e];
    assert Bounded(s', n);
    assert AllConsistent(s', n);
    assert Cleared(s', n, n);
  }

  /** Once normalised, the right half of row 0 selects the constant term:
      sum_r row0[n + r] * (r + 1)^k == [k == 0] modulo P. */
  lemma FirstRowSelects(s: seq<seq<nat>>, n: nat)
    requires Normal(s, n, n) && n >= 1
    ensures SelectsConstant(n, Right(s[0], n))
  {
    forall k: nat | k < n
      ensures PowerSum(n, Right(s[0], n), k) % P == (if k == 0 then 1 else 0)
    {
      assert Consistent(s[0], n);
      assert s[0][k] == if k == 0 then 1 else 0;
    }
  }

  // ---------------------------------------------------------------------
  // The algorithm, in place on the augmented matrix

  /** The augmented matrix as a value. */
  ghost function Rows(m: array2<nat>): (s: seq<seq<nat>>)
    reads m
    ensures |s| == m.Length0
    ensures forall j :: 0 <= j < m.Length0 ==> |s[j]| == m.Length1
    ensures forall j, k :: 0 <= j < m.Length0 && 0 <= k < m.Length1 ==> s[j][k] == m[j, k]
  {
    seq(m.Length0, j requires 0 <= j < m.Length0 reads m =>
      seq(m.Length1, k requires 0 <= k < m.Length1 reads m => m[j, k]))
  }

  /** The weights a row of results holds. */
  ghost function WeightsOf(w: seq<nat>): nat -> int
  {
    (r: nat) => if r < |w| then w[r] else 0
  }

  /** vandermond_mat_inv_row: the first row of V^-1 for the nodes 1..n. It
      selects the constant term from the powers of the nodes, and it is the
      family of weights resolve_shamir computes one by one. */
  method VandermondeRow(n: nat) returns (result: array<nat>)
    requires n < 0x4000_0000
    ensures fresh(result) && result.Length == n
    ensures SelectsConstant(n, WeightsOf(result[..]))
    ensures forall r :: 0 <= r < n ==> result[r] == Weight(n, r)
  {
    var m := AugmentedVandermonde(n);
    InitialStage(Rows(m), n);
    forall j | 0 <= j < n
      ensures Rows(m)[j][0] == 1
    {
      assert m[j, 0] == Initial(n, j, 0) == 1;
    }
    SwapPass(m, n);

    EliminateAll(m, n);
    NormaliseAll(m, n);

    result := RightHalfOfFirstRow(m, n);
    FirstRowWeights(Rows(m), n, result[..]);
  }

  /** The result: row 0 of the right half. */
  method RightHalfOfFirstRow(m: array2<nat>, n: nat) returns (result: array<nat>)
    requires m.Length0 == n && m.Length1 == 2 * n
    ensures fresh(result) && result.Length == n
    ensures forall r :: 0 <= r < n ==> result[r] == m[0, n + r]
  {
    result := new nat[n];
    var i := 0;
    while i < n
      invariant i <= n
      invariant forall r :: 0 <= r < i ==> result[r] == m[0, n + r]
    {
      result[i] := m[0, n + i];
      i := i + 1;
    }
  }

  /** Gauss-Jordan elimination, column by column. */
  method EliminateAll(m: array2<nat>, n: nat)
    requires m.Length0 == n && m.Length1 == 2 * n && n < 0x4000_0000
    requires Stage(Rows(m), n, 0)
    modifies m
    ensures Normal(Rows(m), n, 0)
  {
    var i := 0;
    while i < n
      invariant i <= n
      invariant Stage(Rows(m), n, i)
    {
      EliminateColumn(m, n, i);
      i := i + 1;
    }
    StartNormal(Rows(m), n);
  }

  /** Every row is divided by its pivot. */
  method NormaliseAll(m: array2<nat>, n: nat)
    requires m.Length0 == n && m.Length1 == 2 * n
    requires Normal(Rows(m), n, 0)
    modifies m
    ensures Normal(Rows(m), n, n)
  {
    var i := 0;
    while i < n
      invariant i <= n
      invariant Normal(Rows(m), n, i)
    {
      var inv := ModInverse(m[i, i]);
      NormalStep(Rows(m), n, i, inv);
      ScaleRow(m, i, inv);
      i := i + 1;
    }
  }

  /** The right half of row 0, once normalised, is the first row of V^-1. */
  lemma FirstRowWeights(s: seq<seq<nat>>, n: nat, w: seq<nat>)
    requires Normal(s, n, n) && n <= P && |w| == n
    requires forall r :: 0 <= r < n ==> w[r] == s[0][n + r]
    ensures SelectsConstant(n, WeightsOf(w))
    ensures forall r :: 0 <= r < n ==> w[r] == Weight(n, r)
  {
    RightHalfSelects(s, n, w);
    SelectingWeights(n, w);
  }

  lemma RightHalfSelects(s: seq<seq<nat>>, n: nat, w: seq<nat>)
    requires Normal(s, n, n) && |w| == n
    requires forall r :: 0 <= r < n ==> w[r] == s[0][n + r]
    ensures SelectsConstant(n, WeightsOf(w))
    ensures forall r :: 0 <= r < n ==> w[r] < P
  {
    if n >= 1 {
      FirstRowSelects(s, n);
      forall r: nat | r < n
        ensures Right(s[0], n)(r) == WeightsOf(w)(r)
      {
      }
      SelectsExt(n, Right(s[0], n), WeightsOf(w));
    }
  }

  /** Residues that select the constant term are resolve_shamir's weights. */
  lemma SelectingWeights(n: nat, w: seq<nat>)
    requires n <= P && |w| == n && SelectsConstant(n, WeightsOf(w))
    requires forall r :: 0 <= r < n ==> w[r] < P
    ensures forall r :: 0 <= r < n ==> w[r] == Weight(n, r)
  {
    WeightsUnique(n, WeightsOf(w));
    forall r | 0 <= r < n
      ensures w[r] == Weight(n, r)
    {
      assert WeightsOf(w)(r) == w[r];
    }
  }

  /** The augmented matrix [V | I], with V[i][j] == pow(i + 1, j). */
  method AugmentedVandermonde(n: nat) returns (m: array2<nat>)
    requires n < 0x4000_0000
    ensures fresh(m) && m.Length0 == n && m.Length1 == 2 * n
    ensures forall j, k :: 0 <= j < n && 0 <= k < 2 * n ==> m[j, k] == Initial(n, j, k)
  {
    m := new nat[n, 2 * n];
    var i := 0;
    while i < n
      invariant i <= n
      invariant forall j, k :: 0 <= j < i && 0 <= k < 2 * n ==> m[j, k] == Initial(n, j, k)
    {
      var j := 0;
      while j < n
        invariant j <= n
        invariant forall j', k :: 0 <= j' < i && 0 <= k < 2 * n ==> m[j', k] == Initial(n, j', k)
        invariant forall k :: 0 <= k < j ==> m[i, k] == Initial(n, i, k)
        invariant forall k :: n <= k < n + j ==> m[i, k] == 0
      {
        var v := Pow(i + 1, j);
        m[i, j] := v;
        m[i, n + j] := 0;
        j := j + 1;
      }
      m[i, n + i] := 1;
      i := i + 1;
    }
  }

  /** The pass from the last row up that swaps row i - 1 below row i when
      its first entry is smaller: the largest first entry rises to row 0,
      and the rows are only permuted. When column 0 is constant, as the
      column of pow(i + 1, 0) == 1 of [V | I] is, no swap fires and the
      matrix is left as it is. */
  method SwapPass(m: array2<nat>, n: nat)
    requires m.Length0 == n && m.Length1 == 2 * n
    modifies m
    ensures n > 0 ==> forall j :: 0 <= j < n ==> m[j, 0] <= m[0, 0]
    ensures multiset(Rows(m)) == multiset(old(Rows(m)))
    ensures Flat(old(Rows(m))) ==> Rows(m) == old(Rows(m))
  {
    if n == 0 {
      return;
    }
    ghost var s0 := Rows(m);
    ghost var rows := s0;
    var i: nat := n - 1;
    while i > 0
      invariant i < n && rows == Rows(m)
      invariant PassInv(s0, rows, i)
    {
      var swapped := SwapStep(m, i);
      PassStep(s0, rows, i, swapped);
      rows := if swapped then Swapped(rows, i - 1, i) else rows;
      i := i - 1;
    }
    PassDone(s0, rows);
  }

  /** At row 0 the pass is complete. */
  lemma PassDone(s0: seq<seq<nat>>, rows: seq<seq<nat>>)
    requires PassInv(s0, rows, 0)
    ensures forall j :: 0 <= j < |rows| ==> rows[j][0] <= rows[0][0]
    ensures multiset(rows) == multiset(s0)
    ensures Flat(s0) ==> rows == s0
  {
  }

  /** Column 0 of every row holds the same value. */
  ghost predicate Flat(s: seq<seq<nat>>)
  {
    forall j :: 0 <= j < |s| ==> |s[0]| >= 1 && |s[j]| >= 1 && s[j][0] == s[0][0]
  }

  /** The pass has reached row i: rows i.. hold their largest first entry
      at row i, rows ..i are untouched, and the rows are a permutation of
      s0, equal to it when column 0 is constant. */
  ghost predicate PassInv(s0: seq<seq<nat>>, rows: seq<seq<nat>>, i: nat)
  {
    && |rows| == |s0| && i < |s0|
    && (forall j :: 0 <= j < |rows| ==> |rows[j]| >= 1)
    && (forall j :: i <= j < |rows| ==> rows[j][0] <= rows[i][0])
    && (forall j :: 0 <= j < i ==> rows[j] == s0[j])
    && multiset(rows) == multiset(s0)
    && (Flat(s0) ==> rows == s0)
  }

  /** One comparison of the pass keeps its invariant one row further up. */
  lemma PassStep(s0: seq<seq<nat>>, rows: seq<seq<nat>>, i: nat, swapped: bool)
    requires 1 <= i && PassInv(s0, rows, i)
    requires swapped == (rows[i - 1][0] < rows[i][0])
    ensures PassInv(s0, if swapped then Swapped(rows, i - 1, i) else rows, i - 1)
  {
    if Flat(s0) {
      assert rows[i - 1][0] == s0[0][0] == rows[i][0];
    } else if rows[i - 1][0] < rows[i][0] {
      var next := Swapped(rows, i - 1, i);
      assert forall j :: i - 1 <= j < |next| ==> next[j][0] <= next[i - 1][0];
      assert forall j :: 0 <= j < i - 1 ==> next[j] == s0[j];
      SwappedMultiset(rows, i - 1, i);
    }
  }

  /** Two entries of a sequence trade places. */
  ghost function Swapped(s: seq<seq<nat>>, a: nat, b: nat): (r: seq<seq<nat>>)
    requires a < |s| && b < |s|
    ensures |r| == |s| && r[a] == s[b] && r[b] == s[a]
    ensures forall j :: 0 <= j < |s| && j != a && j != b ==> r[j] == s[j]
  {
    s[a := s[b]][b := s[a]]
  }

  lemma SwappedMultiset(s: seq<seq<nat>>, a: nat, b: nat)
    requires a < |s| && b < |s|
    ensures multiset(Swapped(s, a, b)) == multiset(s)
  {
    var t := s[a := s[b]];
    assert multiset(t) == multiset(s) - multiset{s[a]} + multiset{s[b]};
  }

  /** One comparison of the pass: rows i - 1 and i trade places exactly when
      the first entry of row i - 1 is the smaller. */
  method SwapStep(m: array2<nat>, i: nat) returns (swapped: bool)
    requires 1 <= i < m.Length0 && m.Length1 >= 1
    modifies m
    ensures swapped == (old(Rows(m))[i - 1][0] < old(Rows(m))[i][0])
    ensures Rows(m) == if swapped then Swapped(old(Rows(m)), i - 1, i) else old(Rows(m))
  {
    swapped := m[i - 1, 0] < m[i, 0];
    ghost var before := Rows(m);
    if m[i - 1, 0] < m[i, 0] {
      SwapRows(m, i - 1, i);
      ghost var swapped := Swapped(before, i - 1, i);
      forall j | 0 <= j < m.Length0
        ensures Rows(m)[j] == swapped[j]
      {
        assert forall k :: 0 <= k < m.Length1 ==> Rows(m)[j][k] == swapped[j][k];
      }
      assert Rows(m) == swapped;
    }
  }

  /** std::swap of two rows: their entries trade places, all other rows
      stay. */
  method SwapRows(m: array2<nat>, a: nat, b: nat)
    requires a < m.Length0 && b < m.Length0
    modifies m
    ensures forall k :: 0 <= k < m.Length1 ==> m[a, k] == old(m[b, k]) && m[b, k] == old(m[a, k])
    ensures forall j, k :: 0 <= j < m.Length0 && j != a && j != b && 0 <= k < m.Length1 ==> m[j, k] == old(m[j, k])
  {
    for k := 0 to m.Length1
      invariant forall k' :: 0 <= k' < k ==> m[a, k'] == old(m[b, k']) && m[b, k'] == old(m[a, k'])
      invariant forall j, k' :: 0 <= j < m.Length0 && 0 <= k' < m.Length1 && (k' >= k || (j != a && j != b)) ==> m[j, k'] == old(m[j, k'])
    {
      m[a, k], m[b, k] := m[b, k], m[a, k];
    }
  }

  /** Selecting the constant term depends only on the weights of 1..n. */
  lemma SelectsExt(n: nat, w: nat -> int, v: nat -> int)
    requires SelectsConstant(n, w)
    requires forall r: nat :: r < n ==> w(r) == v(r)
    ensures SelectsConstant(n, v)
  {
    forall k: nat | k < n
      ensures PowerSum(n, v, k) == PowerSum(n, w, k)
    {
      SumExt(n, (r: nat) => w(r) * Exp(r + 1, k), (r: nat) => v(r) * Exp(r + 1, k));
    }
  }

  /** One pass of the elimination: column i is cleared from every other row
      by subtracting a multiple of row i. */
  method EliminateColumn(m: array2<nat>, n: nat, i: nat)
    requires m.Length0 == n && m.Length1 == 2 * n && i < n < 0x4000_0000
    requires Stage(Rows(m), n, i)
    modifies m
    ensures Stage(Rows(m), n, i + 1)
  {
    PivotNonzero(Rows(m), n, i);
    var inv := ModInverse(m[i, i]);
    StartWorking(Rows(m), n, i, inv);
    var j := 0;
    while j < n
      invariant j <= n
      invariant Working(Rows(m), n, i, j, inv)
    {
      if i != j {
        var temp := (m[j, i] * inv) % P;
        WorkingStep(Rows(m), n, i, j, inv);
        SubtractRow(m, i, j, temp);
      } else {
        WorkingSkip(Rows(m), n, i, inv);
      }
      j := j + 1;
    }
    FinishWorking(Rows(m), n, i, inv);
  }

  /** Row j -= t * row i, entry by entry, modulo P. The entries stay below
      P, so p + matrix[j][k] fits the 32-bit unsigned sum. */
  method SubtractRow(m: array2<nat>, i: nat, j: nat, t: nat)
    requires i < m.Length0 && j < m.Length0 && i != j
    requires forall k :: 0 <= k < m.Length1 ==> m[j, k] < P
    modifies m
    ensures Rows(m) == old(Rows(m))[j := Eliminated(old(Rows(m))[j], old(Rows(m))[i], t)]
  {
    ghost var s := Rows(m);
    var k := 0;
    while k < m.Length1
      invariant k <= m.Length1
      invariant forall r, c :: 0 <= r < m.Length0 && 0 <= c < m.Length1 ==>
        m[r, c] == if r == j && c < k then (P + s[j][c] - (s[i][c] * t) % P) % P else s[r][c]
    {
      assert P + m[j, k] < U32;
      m[j, k] := (P + m[j, k] - (m[i, k] * t) % P) % P;
      k := k + 1;
    }
    ghost var e := Eliminated(s[j], s[i], t);
    assert Rows(m) == s[j := e] by {
      forall r | 0 <= r < m.Length0
        ensures Rows(m)[r] == s[j := e][r]
      {
      }
    }
  }

  /** Row i *= inv, entry by entry, modulo P. */
  method ScaleRow(m: array2<nat>, i: nat, inv: nat)
    requires i < m.Length0
    modifies m
    ensures Rows(m) == old(Rows(m))[i := Scaled(old(Rows(m))[i], inv)]
  {
    ghost var s := Rows(m);
    var j := 0;
    while j < m.Length1
      invariant j <= m.Length1
      invariant forall r, c :: 0 <= r < m.Length0 && 0 <= c < m.Length1 ==>
        m[r, c] == if r == i && c < j then (s[i][c] * inv) % P else s[r][c]
    {
      m[i, j] := (m[i, j] * inv) % P;
      j := j + 1;
    }
    ghost var e := Scaled(s[i], inv);
    assert Rows(m) == s[i := e] by {
      forall r | 0 <= r < m.Length0
        ensures Rows(m)[r] == s[i := e][r]
      {
      }
    }
  }
}
