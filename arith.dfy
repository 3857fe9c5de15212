/** Integer facts the field and sharing proofs rest on: powers, Euclidean
    remainders, greatest common divisors and Bezout coefficients. */
module Arith {

  /** b raised to the e-th power, over the integers. */
  ghost function Exp(b: int, e: nat): int
    decreases e
  {
    if e == 0 then 1 else b * Exp(b, e - 1)
  }

  /** 2 to the k-th power, computable. */
  function Pow2(k: nat): (r: nat)
    ensures r >= 1
  {
    if k == 0 then 1 else 2 * Pow2(k - 1)
  }

  function Abs(x: int): nat
  {
    if x < 0 then -x else x
  }

  /** d divides n (d is positive). */
  predicate Divides(d: int, n: int)
  {
    d > 0 && n % d == 0
  }

  /** Euclid's remainder recursion; Gcd(a, 0) == a. */
  function Gcd(a: nat, b: nat): nat
    decreases b
  {
    if b == 0 then a else Gcd(b, a % b)
  }

  // ---------------------------------------------------------------------
  // Euclidean division

  /** The quotient and remainder of x by m are the unique q, r with
      x == q * m + r and 0 <= r < m. */
  lemma DivModUnique(x: int, m: int, q: int, r: int)
    requires m > 0 && 0 <= r < m && x == q * m + r
    ensures x / m == q && x % m == r
  {
    var q0, r0 := x / m, x % m;
    assert x == q0 * m + r0;
    if q0 > q {
      assert (q0 - q) * m == r - r0;
      MulLe(1, q0 - q, m);
      assert false;
    } else if q0 < q {
      assert (q - q0) * m == r0 - r;
      MulLe(1, q - q0, m);
      assert false;
    }
  }

  lemma MulLe(a: int, b: int, m: int)
    requires 0 <= a <= b && m >= 0
    ensures a * m <= b * m
  {
  }

  lemma MulBound(a: nat, b: nat, x: nat, y: nat)
    requires a < x && b < y
    ensures a * b < x * y
  {
    MulLe(a, x, b);
    MulLe(b, y, x);
    assert b * x == x * b;
  }

  lemma ModMultipleAdd(k: int, r: int, m: int)
    requires m > 0
    ensures (k * m + r) % m == r % m
  {
    DivModUnique(k * m + r, m, k + r / m, r % m);
  }

  /** Adding m before subtracting a residue does not change the result. */
  lemma ModSubResidue(a: int, w: int, m: int)
    requires m > 0
    ensures (m + a - w % m) % m == (a - w) % m
  {
    var q := 1 + w / m;
    assert m + a - w % m == q * m + (a - w);
    ModMultipleAdd(q, a - w, m);
  }

  lemma SmallMod(x: int, m: int)
    requires 0 <= x < m
    ensures x % m == x
  {
    DivModUnique(x, m, 0, x);
  }

  lemma ModOfMod(x: int, m: int)
    requires m > 0
    ensures (x % m) % m == x % m
  {
    DivModUnique(x % m, m, 0, x % m);
  }

  lemma ModAdd(a: int, b: int, m: int)
    requires m > 0
    ensures (a + b) % m == (a % m + b % m) % m
  {
    ModMultipleAdd(a / m + b / m, a % m + b % m, m);
    assert a + b == (a / m + b / m) * m + (a % m + b % m);
  }

  lemma ModSub(a: int, b: int, m: int)
    requires m > 0
    ensures (a - b) % m == (a % m - b % m) % m
  {
    ModMultipleAdd(a / m - b / m, a % m - b % m, m);
    assert a - b == (a / m - b / m) * m + (a % m - b % m);
  }

  lemma ModMul(a: int, b: int, m: int)
    requires m > 0
    ensures (a * b) % m == ((a % m) * (b % m)) % m
  {
    var qa, ra, qb, rb := a / m, a % m, b / m, b % m;
    calc {
      a * b;
      (qa * m + ra) * (qb * m + rb);
      (qa * qb * m + qa * rb + ra * qb) * m + ra * rb;
    }
    ModMultipleAdd(qa * qb * m + qa * rb + ra * qb, ra * rb, m);
  }

  /** Multiplying by a value congruent mod m gives congruent products. */
  lemma DiffOfCong(a: int, b: int, m: int)
    requires m > 0 && a % m == b % m
    ensures (a - b) % m == 0
  {
    ModSub(a, b, m);
  }

  lemma CongOfDiff(a: int, b: int, m: int)
    requires m > 0 && (a - b) % m == 0
    ensures a % m == b % m
  {
    ModAdd(a - b, b, m);
    ModOfMod(b, m);
  }

  lemma ModMulLeft(a: int, b: int, c: int, m: int)
    requires m > 0 && b % m == c % m
    ensures (a * b) % m == (a * c) % m
  {
    ModMul(a, b, m);
    ModMul(a, c, m);
  }

  lemma ModMulRight(a: int, b: int, c: int, m: int)
    requires m > 0 && a % m == b % m
    ensures (a * c) % m == (b * c) % m
  {
    ModMul(a, c, m);
    ModMul(b, c, m);
  }

  lemma MulAssoc(a: int, b: int, c: int)
    ensures a * (b * c) == (a * b) * c
  {
  }

  // ---------------------------------------------------------------------
  // Powers

  lemma {:induction false} ExpAdd(b: int, i: nat, j: nat)
    ensures Exp(b, i + j) == Exp(b, i) * Exp(b, j)
    decreases i
  {
    if i > 0 {
      ExpAdd(b, i - 1, j);
      MulAssoc(b, Exp(b, i - 1), Exp(b, j));
    }
  }

  lemma {:induction false} ExpMul(b: int, i: nat, j: nat)
    ensures Exp(b, i * j) == Exp(Exp(b, i), j)
    decreases j
  {
    if j > 0 {
      assert i * j == i * (j - 1) + i;
      ExpAdd(b, i * (j - 1), i);
      ExpMul(b, i, j - 1);
    }
  }

  lemma {:induction false} ExpOne(n: nat)
    ensures Exp(1, n) == 1
  {
    if n > 0 {
      ExpOne(n - 1);
    }
  }

  lemma {:induction false} ExpZero(n: nat)
    requires n > 0
    ensures Exp(0, n) == 0
  {
  }

  lemma {:induction false} ExpProd(a: int, b: int, e: nat)
    ensures Exp(a * b, e) == Exp(a, e) * Exp(b, e)
  {
    if e > 0 {
      ExpProd(a, b, e - 1);
      Interchange(a, b, Exp(a, e - 1), Exp(b, e - 1));
    }
  }

  lemma Interchange(a: int, b: int, x: int, y: int)
    ensures (a * b) * (x * y) == (a * x) * (b * y)
  {
    MulAssoc(a, b, x * y);
    MulAssoc(b, x, y);
    MulAssoc(a, x, b * y);
    MulAssoc(x, b, y);
    assert b * x == x * b;
  }

  /** Powers respect congruence of the base. */
  lemma {:induction false} ExpModBase(b: int, e: nat, m: int)
    requires m > 0
    ensures Exp(b, e) % m == Exp(b % m, e) % m
  {
    if e > 0 {
      ExpModBase(b, e - 1, m);
      ModMul(b, Exp(b, e - 1), m);
      ModMul(b % m, Exp(b % m, e - 1), m);
      ModOfMod(b, m);
    }
  }

  lemma {:induction false} ExpNonneg(b: int, e: nat)
    requires b >= 0
    ensures Exp(b, e) >= 0
  {
    if e > 0 {
      ExpNonneg(b, e - 1);
    }
  }

  lemma {:induction false} ExpPositive(b: int, e: nat)
    requires b > 0
    ensures Exp(b, e) > 0
  {
    if e > 0 {
      ExpPositive(b, e - 1);
    }
  }

  // ---------------------------------------------------------------------
  // Divisibility and greatest common divisors

  lemma DividesLe(d: int, n: int)
    requires Divides(d, n) && n > 0
    ensures d <= n
  {
    var k := n / d;
    assert n == k * d;
    if k <= 0 {
      MulLe(k, 0, d);
      assert false;
    }
    MulLe(1, k, d);
  }

  lemma Quotient(d: int, n: int)
    requires Divides(d, n)
    ensures n == d * (n / d)
  {
  }

  lemma DividesMultiple(d: int, n: int, k: int)
    requires Divides(d, n)
    ensures Divides(d, n * k)
  {
    var q := n / d;
    Quotient(d, n);
    MulAssoc(d, q, k);
    assert n * k == (q * k) * d;
    ModMultipleAdd(q * k, 0, d);
  }

  lemma DividesSum(d: int, a: int, b: int)
    requires Divides(d, a) && Divides(d, b)
    ensures Divides(d, a + b)
  {
    ModAdd(a, b, d);
  }

  lemma DividesDiff(d: int, a: int, b: int)
    requires Divides(d, a) && Divides(d, b)
    ensures Divides(d, a - b)
  {
    ModSub(a, b, d);
  }

  lemma DividesTrans(a: int, b: int, c: int)
    requires Divides(a, b) && Divides(b, c)
    ensures Divides(a, c)
  {
    Quotient(b, c);
    DividesMultiple(a, b, c / b);
  }

  /** A divisor of both arguments is a divisor of the remainder. */
  lemma DividesMod(d: int, a: int, b: int)
    requires Divides(d, a) && Divides(d, b) && b > 0
    ensures Divides(d, a % b)
  {
    assert a % b == a - (a / b) * b;
    DividesMultiple(d, b, a / b);
    DividesDiff(d, a, (a / b) * b);
  }

  /** Gcd(a, b) divides both a and b, unless both are zero. */
  lemma {:induction false} GcdDivides(a: nat, b: nat)
    requires a > 0 || b > 0
    ensures Gcd(a, b) > 0 && Divides(Gcd(a, b), a) && Divides(Gcd(a, b), b)
    decreases b
  {
    if b > 0 {
      GcdDivides(b, a % b);
      var g := Gcd(b, a % b);
      assert a == (a / b) * b + a % b;
      DividesMultiple(g, b, a / b);
      DividesSum(g, (a / b) * b, a % b);
    }
  }

  /** Every common divisor of a and b divides Gcd(a, b). */
  lemma {:induction false} GcdGreatest(a: nat, b: nat, d: int)
    requires Divides(d, a) && Divides(d, b)
    ensures Divides(d, Gcd(a, b))
    decreases b
  {
    if b > 0 {
      DividesMod(d, a, b);
      GcdGreatest(b, a % b, d);
    }
  }

  /** Bezout coefficients: a * x + b * y == Gcd(a, b). */
  lemma {:induction false} Bezout(a: nat, b: nat) returns (x: int, y: int)
    ensures a * x + b * y == Gcd(a, b)
    decreases b
  {
    if b == 0 {
      x, y := 1, 0;
    } else {
      var x', y' := Bezout(b, a % b);
      x, y := y', x' - (a / b) * y';
      BezoutStep(a, b, a / b, a % b, x', y', Gcd(a, b));
    }
  }

  lemma LeftDistrib(z: int, x: int, y: int)
    ensures z * (x + y) == z * x + z * y
  {
  }

  lemma RightDistrib(x: int, y: int, z: int)
    ensures (x + y) * z == x * z + y * z
  {
  }

  lemma Swap3(a: int, b: int, c: int)
    ensures a * (b * c) == b * (a * c)
  {
    MulAssoc(a, b, c);
    MulAssoc(b, a, c);
    assert a * b == b * a;
  }

  lemma UnitCombination(u: int, v: int, b: int)
    requires u + v == 1
    ensures b == u * b + v * b
  {
    assert (u + v) * b == u * b + v * b;
  }

  lemma Rotate(a: int, y: int, b: int)
    ensures (a * y) * b == (a * b) * y
  {
    MulAssoc(a, y, b);
    MulAssoc(a, b, y);
    assert y * b == b * y;
  }

  /** One step of the extended Euclid recurrence, on plain numbers. */
  lemma BezoutStep(a: int, b: int, q: int, r: int, x: int, y: int, g: int)
    requires a == q * b + r && b * x + r * y == g
    ensures a * y + b * (x - q * y) == g
  {
    RightDistrib(q * b, r, y);
    SubDistribLeft(b, x, q * y);
    MulAssoc(b, q, y);
    assert q * b == b * q;
  }

  lemma SubDistribLeft(a: int, x: int, y: int)
    ensures a * (x - y) == a * x - a * y
  {
  }

  /** If m is coprime to a and divides a * b, it divides b. */
  lemma CoprimeDivides(m: nat, a: nat, b: int)
    requires m > 0 && Gcd(m, a) == 1 && Divides(m, a * b)
    ensures Divides(m, b)
  {
    var x, y := Bezout(m, a);
    var u, v := m * x, a * y;
    UnitCombination(u, v, b);
    MulAssoc(m, x, b);
    Rotate(a, y, b);
    assert b == m * (x * b) + (a * b) * y;
    DividesMultiple(m, m, x * b);
    DividesMultiple(m, a * b, y);
    DividesSum(m, m * (x * b), (a * b) * y);
  }
}
