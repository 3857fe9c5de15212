/** The arithmetic helpers of utils.cpp over the prime field of P = 2^31 - 1:
    modular power, Euclid's gcd, the extended-Euclid inverse, the square root
    for P = 3 (mod 4), and the integer ceilings of square root and log2. */
module Field {
  import opened Arith
  import opened Modulus

  /** Range of a 32-bit unsigned value (utils::share, unsigned). */
  const U32: nat := 0x1_0000_0000
  /** Range of a 64-bit unsigned value (uint64_t). */
  const U64: nat := 0x1_0000_0000_0000_0000
  /** Range of a 16-bit unsigned value (unsigned short). */
  const U16: nat := 0x1_0000

  /** One step of square-and-multiply, as an identity of powers. */
  lemma {:induction false} ExpHalve(b: int, e: nat)
    ensures Exp(b, e) == (if e % 2 == 1 then b else 1) * Exp(b * b, e / 2)
  {
    ExpMul(b, 2, e / 2);
    assert Exp(b, 2) == b * b by { assert Exp(b, 1) == b; }
    if e % 2 == 1 {
      assert e == 2 * (e / 2) + 1;
    } else {
      assert e == 2 * (e / 2);
    }
  }

  lemma PowStep(result: nat, b: nat, e: nat, result': nat, b': nat)
    requires e > 0
    requires result' == if e % 2 == 1 then (result * b) % P else result
    requires b' == (b * b) % P
    ensures (result' * Exp(b', e / 2)) % P == (result * Exp(b, e)) % P
  {
    var f := if e % 2 == 1 then b else 1;
    var rest := Exp(b * b, e / 2);
    ExpHalve(b, e);
    ExpModBase(b * b, e / 2, P);
    ModMulLeft(result', Exp(b', e / 2), rest, P);
    if e % 2 == 1 {
      ModOfMod(result * b, P);
    } else {
      assert result * f == result;
    }
    ModMulRight(result', result * f, rest, P);
    MulAssoc(result, f, rest);
  }

  /** pow: square-and-multiply modulo P; no 64-bit product overflows. */
  method Pow(base: nat, exponent: nat) returns (r: nat)
    requires base < U32 && exponent < U32
    ensures r < P
    ensures r == Exp(base, exponent) % P
  {
    var result: nat := 1;
    var b: nat := base;
    var e: nat := exponent;
    while e > 0
      invariant result < P && b < U32
      invariant (result * Exp(b, e)) % P == Exp(base, exponent) % P
      decreases e
    {
      var result' := result;
      if e % 2 == 1 {
        MulBound(result, b, P, U32);
        result' := (result * b) % P;
      }
      MulBound(b, b, U32, U32);
      var b' := (b * b) % P;
      PowStep(result, b, e, result', b');
      result, b, e := result', b', e / 2;
    }
    r := result;
  }

  /** gcd: Euclid's remainder loop. */
  method GreatestCommonDivisor(a: nat, b: nat) returns (g: nat)
    ensures g == Gcd(a, b)
    ensures b == 0 ==> g == a
    ensures a > 0 || b > 0 ==> Divides(g, a) && Divides(g, b)
    ensures forall d :: Divides(d, a) && Divides(d, b) ==> Divides(d, g)
  {
    var x, y := a, b;
    while y != 0
      invariant Gcd(x, y) == Gcd(a, b)
      decreases y
    {
      x, y := y, x % y;
    }
    g := x;
    if a > 0 || b > 0 {
      GcdDivides(a, b);
    }
    forall d | Divides(d, a) && Divides(d, b)
      ensures Divides(d, g)
    {
      GcdGreatest(a, b, d);
    }
  }

  /** A value with an inverse modulo P shares no factor with P. */
  lemma CoprimeToP(v: nat)
    requires v % P != 0
    ensures Gcd(v, P) == 1
  {
    GcdDivides(v, P);
    var g := Gcd(v, P);
    var y := Inv(v);
    var k := (v * y) / P;
    assert v * y == k * P + 1;
    DividesMultiple(g, v, y);
    DividesMultiple(g, P, k);
    DividesDiff(g, v * y, k * P);
    DividesLe(g, 1);
  }

  /** The state of the extended Euclidean loop on (value, P): a and m are
      consecutive remainders with cofactors x and y of alternating sign. */
  ghost predicate EuclidState(value: nat, a: int, m: int, x: int, y: int)
  {
    && a >= 0 && m >= 0
    && (value == 0 ==> a == 0 && x == 1)
    && (value != 0 ==> a >= 1 && Gcd(a, m) == 1)
    && (x * value - a) % P == 0 && (y * value - m) % P == 0
    && Abs(x) * m + Abs(y) * a == P
    && x * y <= 0
    && Abs(x) < P
  }

  lemma EuclidStart(value: nat)
    requires value == 0 || value % P != 0
    ensures EuclidState(value, value, P, 1, 0)
  {
    if value != 0 {
      CoprimeToP(value);
    }
  }

  lemma ModDiffStep(x: int, y: int, v: int, a: int, m: int)
    requires m > 0
    requires (x * v - a) % P == 0 && (y * v - m) % P == 0
    ensures ((x - (a / m) * y) * v - a % m) % P == 0
  {
    var q := a / m;
    assert a % m == a - q * m;
    assert (x - q * y) * v - (a - q * m) == (x * v - a) - q * (y * v - m);
    DividesMultiple(P, y * v - m, q);
    assert q * (y * v - m) == (y * v - m) * q;
    DividesDiff(P, x * v - a, (y * v - m) * q);
  }

  lemma AbsStep(x: int, y: int, q: int)
    requires x * y <= 0 && q >= 0
    ensures Abs(x - q * y) == Abs(x) + q * Abs(y)
  {
    if x > 0 {
      assert y <= 0;
    } else if x < 0 {
      assert y >= 0;
    }
  }

  /** The cofactor bound Abs(x) * m + Abs(y) * a == total survives one step. */
  lemma CofactorStep(a: int, m: int, x: int, y: int, total: int)
    requires a > 1 && m > 0 && x * y <= 0
    requires Abs(x) * m + Abs(y) * a == total
    ensures Abs(y) * (a % m) + Abs(x - (a / m) * y) * m == total
  {
    var q := a / m;
    var m' := a % m;
    var A, B := Abs(x), Abs(y);
    AbsStep(x, y, q);
    assert a == q * m + m';
    RightDistrib(A, q * B, m);
    LeftDistrib(B, q * m, m');
    MulAssoc(B, q, m);
    assert B * q == q * B;
  }

  /** The cofactors keep alternating in sign. */
  lemma CofactorSign(a: int, m: int, x: int, y: int)
    requires a > 1 && m > 0 && x * y <= 0
    ensures y * (x - (a / m) * y) <= 0
  {
    var q := a / m;
    SignStep(x, y, q);
    MulLe(0, q, y * y);
  }

  lemma SignStep(x: int, y: int, q: int)
    ensures y * (x - q * y) == x * y - q * (y * y)
  {
    MulAssoc(y, q, y);
    assert y * q == q * y;
    MulAssoc(q, y, y);
  }

  /** While a > 1 the second cofactor is at most half the total. */
  lemma CofactorHalf(a: int, m: int, x: int, y: int, total: int)
    requires a > 1 && m >= 0
    requires Abs(x) * m + Abs(y) * a == total
    ensures 2 * Abs(y) <= total
  {
    MulLe(0, Abs(x), m);
    MulLe(2, a, Abs(y));
  }

  lemma EuclidStep(value: nat, a: int, m: int, x: int, y: int)
    requires EuclidState(value, a, m, x, y) && a > 1
    ensures m != 0
    ensures EuclidState(value, m, a % m, y, x - (a / m) * y)
  {
    if m == 0 {
      assert false;
    }
    CofactorStep(a, m, x, y, P);
    CofactorSign(a, m, x, y);
    CofactorHalf(a, m, x, y, P);
    ModDiffStep(x, y, value, a, m);
  }

  /** mod_inverse: the extended Euclidean algorithm on (value, P). For a value
      that is not a multiple of P the result is its inverse in [0, P); for 0
      the loop never runs and 1 comes back. A non-zero multiple of P would
      divide by zero in the second round, so it is excluded. */
  method ModInverse(value: nat) returns (r: nat)
    requires value < U32
    requires value == 0 || value % P != 0
    ensures value == 0 ==> r == 1
    ensures value != 0 ==> r < P && (value * r) % P == 1
  {
    var a: int, y: int, x: int := value, 0, 1;
    var m: int := P;
    EuclidStart(value);
    while a > 1
      invariant EuclidState(value, a, m, x, y)
      decreases m
    {
      EuclidStep(value, a, m, x, y);
      var q := a / m;
      var t := m;
      m, a := a % m, t;
      t := y;
      y := x - q * y;
      x := t;
    }
    if value != 0 {
      EuclidFinish(value, a, m, x, y);
    }
    if x < 0 {
      x := x + P;
    }
    r := x;
  }

  /** When the loop stops, a == 1 and x is the inverse up to one added P. */
  lemma EuclidFinish(value: nat, a: int, m: int, x: int, y: int)
    requires EuclidState(value, a, m, x, y) && a <= 1 && value != 0
    ensures var r := if x < 0 then x + P else x; 0 <= r < P && (value * r) % P == 1
  {
    assert a == 1;
    var r := if x < 0 then x + P else x;
    assert (r * value - 1) % P == 0 by {
      if x < 0 {
        assert r * value - 1 == (x * value - 1) + P * value;
        ModMultipleAdd(value, x * value - 1, P);
      }
    }
    ModMultipleAdd((r * value - 1) / P, 1, P);
    assert r * value == value * r;
  }

  /** The result of ModInverse is the field inverse. */
  lemma ModInverseIsInv(value: nat, r: nat)
    requires value % P != 0 && r < P && (value * r) % P == 1
    ensures r == Inv(value)
  {
    InvUnique(value, r);
  }

  /** modular_sqrt: for P = 3 (mod 4) the root is a^((P+1)/4). */
  method ModularSqrt(a: nat) returns (r: nat)
    requires a < U32
    ensures r < P && r == Exp(a, (P + 1) / 4) % P
  {
    assert P % 4 == 3;
    r := Pow(a, (P + 1) / 4);
  }

  /** The root a^((P+1)/4) squares back to a for every quadratic residue a. */
  lemma SqrtOfSquare(a: int, b: int)
    requires a % P == (b * b) % P
    ensures (Exp(a, (P + 1) / 4) % P) * (Exp(a, (P + 1) / 4) % P) % P == a % P
  {
    var k := (P + 1) / 4;
    var h := N / 2;
    var r := Exp(a, k);
    assert 2 * k == h + 1;
    ModMul(r, r, P);
    ExpAdd(a, k, k);
    assert Exp(a, 2 * k) == a * Exp(a, h) by { assert Exp(a, h + 1) == a * Exp(a, h); }
    ExpModBase(a, h, P);
    ExpModBase(b * b, h, P);
    ExpMul(b, 2, h);
    assert Exp(b, 2) == b * b by { assert Exp(b, 1) == b; }
    assert 2 * h == N;
    if b % P != 0 {
      Fermat(b);
      ModMulLeft(a, Exp(a, h), 1, P);
    } else {
      ModMul(b, b, P);
      assert a % P == 0;
      ModMulRight(a, 0, Exp(a, h), P);
    }
  }

  /** ceil_sqrt on an unsigned short: the least s with s * s >= v. */
  function CeilSqrt(v: nat): (s: nat)
    requires v < U16
    ensures s * s >= v
    ensures s == 0 || (s - 1) * (s - 1) < v
  {
    CeilSqrtFrom(v, 0)
  }

  function CeilSqrtFrom(v: nat, s: nat): (r: nat)
    requires s == 0 || (s - 1) * (s - 1) < v
    ensures r * r >= v
    ensures r == 0 || (r - 1) * (r - 1) < v
    decreases v - s
  {
    if s * s >= v then s
    else
      assert s <= s * s;
      CeilSqrtFrom(v, s + 1)
  }

  /** ceil_log2 on an unsigned short: the least k with 2^k >= v. log2 of 0 is
      undefined, so 0 is excluded. */
  function CeilLog2(v: nat): (k: nat)
    requires 1 <= v < U16
    ensures Pow2(k) >= v
    ensures k == 0 || Pow2(k - 1) < v
  {
    if v == 1 then 0 else 1 + CeilLog2((v + 1) / 2)
  }

  /** The conversion of an unsigned value to unsigned short keeps its low 16 bits. */
  function ToU16(x: nat): (r: nat)
    ensures r < U16 && (x - r) % U16 == 0
  {
    x % U16
  }
}
