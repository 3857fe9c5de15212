/** The comparison protocols of mpc_service.cpp on plaintext values:
    less_bitwise on two bit decompositions, random_number_bits, is_odd and
    less. As elsewhere, multiply opens to the field product, resolve to the
    value itself, and prefix_or to the running OR of bits. */
module Compare {
  import opened Arith
  import opened Modulus
  import opened Field
  import opened Calc
  import opened Mpc
  import opened Prefix
  import Exchange

  // ---------------------------------------------------------------------
  // std::reverse

  /** s back to front. */
  function Reversed(s: seq<nat>): (r: seq<nat>)
    ensures |r| == |s|
    ensures forall i :: 0 <= i < |s| ==> r[i] == s[|s| - 1 - i]
  {
    if |s| == 0 then []
    else
      var rest := Reversed(s[..|s| - 1]);
      assert forall j :: 0 <= j < |s| - 1 ==> s[..|s| - 1][j] == s[j];
      [s[|s| - 1]] + rest
  }

  /** std::reverse on an array: swap the ends, moving inwards. */
  method Reverse(arr: array<nat>)
    modifies arr
    ensures arr[..] == Reversed(old(arr[..]))
  {
    ghost var s := arr[..];
    var n := arr.Length;
    var i := 0;
    while i < n / 2
      invariant 0 <= i <= n / 2
      invariant forall k :: 0 <= k < i ==> arr[k] == s[n - 1 - k]
      invariant forall k :: 0 <= k < i ==> arr[n - 1 - k] == s[k]
      invariant forall k :: i <= k < n - i ==> arr[k] == s[k]
    {
      arr[i], arr[n - 1 - i] := arr[n - 1 - i], arr[i];
      i := i + 1;
    }
    forall k | 0 <= k < n
      ensures arr[k] == s[n - 1 - k]
    {
      if n - i <= k {
        var k' := n - 1 - k;
        assert arr[n - 1 - k'] == s[k'];
      }
    }
    assert arr[..] == Reversed(s);
  }

  // ---------------------------------------------------------------------
  // less_bitwise

  /** 2 (p - a b) + a + b modulo p, with a b the product multiply opens to:
      less_bitwise's c step and is_odd's last step. On bits it is XOR. */
  function Xor(a: nat, b: nat): (r: nat)
    ensures r < P
    ensures a <= 1 && b <= 1 ==> r == Ind(a != b)
  {
    ((P - Mul(a, b)) * 2 + a + b) % P
  }

  /** The index of the highest 1 in c, or -1 when there is none. */
  ghost function Top(c: seq<nat>): (t: int)
    ensures -1 <= t < |c|
    ensures t >= 0 ==> c[t] == 1
    ensures forall k :: t < k < |c| ==> c[k] != 1
  {
    if |c| == 0 then -1
    else if c[|c| - 1] == 1 then |c| - 1
    else
      var t := Top(c[..|c| - 1]);
      assert forall k :: 0 <= k < |c| - 1 ==> c[..|c| - 1][k] == c[k];
      t
  }

  /** The OR of the bits from i upwards is 1 exactly when the highest 1 is
      at i or above. */
  lemma {:induction false} SuffixOr(c: seq<nat>, i: nat)
    requires i <= |c|
    ensures Or(c[i..]) == Ind(Top(c) >= i)
  {
    var t := Top(c);
    if t >= i {
      assert c[i..][t - i] == 1;
    } else {
      forall m | 0 <= m < |c| - i
        ensures c[i..][m] != 1
      {
        assert c[i..][m] == c[i + m];
      }
    }
  }

  /** prefix_or on the reversed bits, read back from the other end, is the
      OR of the bits from i upwards. */
  lemma {:induction false} ReversedPrefixOr(c: seq<nat>, i: nat)
    requires i < |c|
    ensures Or(Reversed(c)[..|c| - i]) == Or(c[i..])
  {
    var r := Reversed(c)[..|c| - i];
    var s := c[i..];
    assert forall j :: 0 <= j < |r| ==> r[j] == s[|s| - 1 - j];
    if HasOne(s) {
      var k :| 0 <= k < |s| && s[k] == 1;
      assert r[|s| - 1 - k] == 1;
    }
    if HasOne(r) {
      var k :| 0 <= k < |r| && r[k] == 1;
      assert s[|s| - 1 - k] == 1;
    }
  }

  /** A prefix of bits is bits. */
  lemma {:induction false} BitsOfPrefix(s: seq<nat>, j: nat)
    requires IsBits(s) && j <= |s|
    ensures IsBits(s[..j])
  {
    forall i | 0 <= i < j
      ensures s[..j][i] <= 1
    {
      assert s[..j][i] == s[i];
    }
  }

  /** Two bit strings compare as their highest differing bit does: a < b
      exactly when that bit exists and is set in b. c marks the bits where
      they differ. */
  lemma {:induction false} CompareAtTop(a: seq<nat>, b: seq<nat>, c: seq<nat>)
    requires IsBits(a) && IsBits(b) && |a| == |b| == |c|
    requires forall i :: 0 <= i < |c| ==> c[i] == Ind(a[i] != b[i])
    ensures BitsValue(a) < BitsValue(b) <==> Top(c) >= 0 && b[Top(c)] == 1
  {
    if |a| > 0 {
      var m := |a| - 1;
      var a', b', c' := a[..m], b[..m], c[..m];
      BitsOfPrefix(a, m);
      BitsOfPrefix(b, m);
      var w := Pow2(m);
      assert BitsValue(a) == BitsValue(a') + w * a[m];
      assert BitsValue(b) == BitsValue(b') + w * b[m];
      assert w * a[m] == if a[m] == 1 then w else 0;
      assert w * b[m] == if b[m] == 1 then w else 0;
      if a[m] != b[m] {
        BitsBound(a');
        BitsBound(b');
      } else {
        forall i | 0 <= i < m
          ensures c'[i] == Ind(a'[i] != b'[i])
        {
          assert c'[i] == c[i] && a'[i] == a[i] && b'[i] == b[i];
        }
        CompareAtTop(a', b', c');
        assert Top(c) == Top(c');
        if Top(c') >= 0 {
          assert b[Top(c')] == b'[Top(c')];
        }
      }
    }
  }

  /** A sum with no non-zero entry except perhaps at t is the entry at t. */
  lemma {:induction false} TotalOneHot(h: seq<nat>, t: int)
    requires forall k :: 0 <= k < |h| && k != t ==> h[k] == 0
    ensures Total(h) == if 0 <= t < |h| then h[t] else 0
  {
    if |h| > 0 {
      var m := |h| - 1;
      forall k | 0 <= k < m && k != t
        ensures h[..m][k] == 0
      {
        assert h[..m][k] == h[k];
      }
      TotalOneHot(h[..m], t);
      if 0 <= t < m {
        assert h[..m][t] == h[t];
      }
    }
  }

  /** The marking stages of less_bitwise: c marks the differing bits, d
      holds the running ORs from the top bit down and ds the same in bit
      order; e, which keeps only the highest 1 of ds, is 1 exactly at the
      highest differing bit. */
  lemma {:induction false} MarksAtTop(c: seq<nat>, d: seq<nat>, ds: seq<nat>, e: seq<nat>)
    requires |d| == |c| && PrefixOrs(Reversed(c), d)
    requires ds == Reversed(d)
    requires IsMarked(ds, e)
    ensures |e| == |c| && forall i :: 0 <= i < |c| ==> e[i] == Ind(Top(c) == i)
  {
    var n := |c|;
    var t := Top(c);
    SuffixOrs(c, d, ds);
    forall i | 0 <= i < n
      ensures e[i] == Ind(t == i)
    {
      if i < n - 1 {
        MarkedValue(t, i, ds[i], ds[i + 1], e[i]);
      }
    }
  }

  /** The last stages of less_bitwise: h keeps b's bit at the highest
      differing bit, so its total says whether a < b. */
  lemma {:induction false} MaskedTotal(a: seq<nat>, b: seq<nat>, c: seq<nat>, e: seq<nat>, h: seq<nat>)
    requires IsBits(a) && IsBits(b) && IsXors(a, b, c)
    requires |e| == |c| && forall i :: 0 <= i < |c| ==> e[i] == Ind(Top(c) == i)
    requires IsMasked(e, b, h)
    ensures Total(h) == Ind(BitsValue(a) < BitsValue(b))
  {
    var n := |a|;
    var t := Top(c);
    forall i | 0 <= i < n
      ensures c[i] == Ind(a[i] != b[i])
    {
      assert a[i] <= 1 && b[i] <= 1;
    }
    forall i | 0 <= i < n
      ensures h[i] == if t == i then b[i] else 0
    {
      MaskedBit(e[i], b[i]);
    }
    TotalOneHot(h, t);
    CompareAtTop(a, b, c);
  }

  /** An entry of e: the OR from i upwards less the OR from i + 1 upwards. */
  lemma MarkedValue(t: int, i: nat, di: nat, dj: nat, ei: nat)
    requires di == Ind(t >= i) && dj == Ind(t >= i + 1)
    requires ei == (P + di - dj) % P
    ensures ei == Ind(t == i)
  {
    SmallMod(P + di - dj - P, P);
    ModMultipleAdd(1, di - dj, P);
  }

  /** The product of a bit with a bit of b is that bit of b or 0. */
  lemma MaskedBit(e: nat, b: nat)
    requires e <= 1 && b <= 1
    ensures Mul(e, b) == if e == 1 then b else 0
  {
    assert e * b == if e == 1 then b else 0;
    SmallMod(e * b, P);
  }

  /** prefix_or of the reversed bits, reversed back: entry i tells whether
      the highest 1 is at i or above. */
  lemma {:induction false} SuffixOrs(c: seq<nat>, d: seq<nat>, ds: seq<nat>)
    requires |d| == |c| && PrefixOrs(Reversed(c), d)
    requires ds == Reversed(d)
    ensures forall i :: 0 <= i < |c| ==> ds[i] == Ind(Top(c) >= i)
  {
    var n := |c|;
    forall i | 0 <= i < n
      ensures ds[i] == Ind(Top(c) >= i)
    {
      assert ds[i] == d[n - 1 - i];
      assert n - 1 - i + 1 == n - i;
      ReversedPrefixOr(c, i);
      SuffixOr(c, i);
    }
  }

  /** c is the XOR of a and b, entry by entry. */
  ghost predicate IsXors(a: seq<nat>, b: seq<nat>, c: seq<nat>)
  {
    |a| == |b| == |c| && forall k :: 0 <= k < |c| ==> c[k] == Xor(a[k], b[k])
  }

  /** e is d with each entry but the last less the entry above it. */
  ghost predicate IsMarked(d: seq<nat>, e: seq<nat>)
  {
    |e| == |d| >= 1 && e[|d| - 1] == d[|d| - 1] &&
    forall i :: 0 <= i < |d| - 1 ==> e[i] == (P + d[i] - d[i + 1]) % P
  }

  /** h is e times b, entry by entry. */
  ghost predicate IsMasked(e: seq<nat>, b: seq<nat>, h: seq<nat>)
  {
    |e| == |b| == |h| && forall k :: 0 <= k < |h| ==> h[k] == Mul(e[k], b[k])
  }

  /** less_bitwise's c loops: the products of the pairs of bits, then the
      XOR of each pair. */
  method XorBits(a: seq<nat>, b: seq<nat>) returns (c: array<nat>)
    requires |a| == |b|
    ensures fresh(c) && IsXors(a, b, c[..])
  {
    var n := |a|;
    c := new nat[n];
    for i := 0 to n
      invariant forall k :: 0 <= k < i ==> c[k] == Mul(a[k], b[k])
    {
      c[i] := Mul(a[i], b[i]);
    }
    for i := 0 to n
      invariant forall k :: 0 <= k < i ==> c[k] == Xor(a[k], b[k])
      invariant forall k :: i <= k < n ==> c[k] == Mul(a[k], b[k])
    {
      c[i] := ((P - c[i]) * 2 + a[i] + b[i]) % P;
    }
  }

  /** less_bitwise's e loop, in place: each entry but the last loses the
      entry above it. */
  method MarkTop(d: array<nat>)
    requires d.Length >= 1
    modifies d
    ensures IsMarked(old(d[..]), d[..])
  {
    ghost var s := d[..];
    var n := d.Length;
    for i := 0 to n - 1
      invariant forall k :: 0 <= k < i ==> d[k] == (P + s[k] - s[k + 1]) % P
      invariant forall k :: i <= k < n ==> d[k] == s[k]
    {
      d[i] := (P + d[i] - d[i + 1]) % P;
    }
  }

  /** less_bitwise's h step: the product of each entry with the bit of b. */
  method BitProducts(e: seq<nat>, b: seq<nat>) returns (h: seq<nat>)
    requires |e| == |b|
    ensures IsMasked(e, b, h)
  {
    h := [];
    for i := 0 to |b|
      invariant |h| == i
      invariant forall k :: 0 <= k < i ==> h[k] == Mul(e[k], b[k])
    {
      h := h + [Mul(e[i], b[i])];
    }
  }

  /** less_bitwise up to its e step: e is 1 at the highest bit where a and
      b differ (c marks those bits) and 0 elsewhere. */
  method TopMarks(a: seq<nat>, b: seq<nat>) returns (e: seq<nat>, ghost c: seq<nat>)
    requires 1 <= |a| == |b| < U16
    requires IsBits(a) && IsBits(b)
    ensures IsXors(a, b, c)
    ensures |e| == |c| && forall i :: 0 <= i < |c| ==> e[i] == Ind(Top(c) == i)
  {
    // calc c, then reverse it: the top bit first
    var xors := XorBits(a, b);
    c := xors[..];
    XorsAreBits(a, b, c);
    Reverse(xors);
    ReversedBits(c);
    // calc d, then reverse it back into bit order
    var d := PrefixOr(xors[..]);
    ghost var ors := d[..];
    Reverse(d);
    ghost var suffix := d[..];
    // calc e inside d
    MarkTop(d);
    e := d[..];
    MarksAtTop(c, ors, suffix, e);
  }

  /** less_bitwise: 1 when the bits of a, least significant first, make a
      smaller number than those of b, else 0. */
  method LessBitwise(a: seq<nat>, b: seq<nat>) returns (r: nat)
    requires 1 <= |a| == |b| < U16
    requires IsBits(a) && IsBits(b)
    ensures r == Ind(BitsValue(a) < BitsValue(b))
  {
    var e;
    ghost var c;
    e, c := TopMarks(a, b);
    // calc h
    var h := BitProducts(e, b);
    MaskedTotal(a, b, c, e, h);
    r := Calc.Sum(h, 0);
    SumOfBit(Total(h));
  }

  /** calc::sum of a total that is a bit is that bit. */
  lemma SumOfBit(t: nat)
    requires t <= 1
    ensures ((0 + t) % U64) % P == t
  {
    SmallMod(t, U64);
    SmallMod(t, P);
  }

  /** The XOR of bits is bits. */
  lemma {:induction false} XorsAreBits(a: seq<nat>, b: seq<nat>, c: seq<nat>)
    requires IsBits(a) && IsBits(b) && IsXors(a, b, c)
    ensures IsBits(c)
  {
    forall k | 0 <= k < |c|
      ensures c[k] <= 1
    {
      assert a[k] <= 1 && b[k] <= 1;
    }
  }

  /** Reversed bits are bits. */
  lemma {:induction false} ReversedBits(s: seq<nat>)
    requires IsBits(s)
    ensures IsBits(Reversed(s))
  {
    var r := Reversed(s);
    forall k | 0 <= k < |r|
      ensures r[k] <= 1
    {
      assert r[k] == s[|s| - 1 - k];
    }
  }

  // ---------------------------------------------------------------------
  // random_number_bits

  /** Every round holds svc.pBitsSize outputs of random_bit, which are
      bits. */
  ghost predicate RoundsFit(svc: Service, rounds: seq<seq<nat>>)
  {
    forall j :: 0 <= j < |rounds| ==> |rounds[j]| == svc.pBitsSize && IsBits(rounds[j])
  }

  /** The first round whose bits make a number below bound, if any. */
  ghost function FirstBelow(rounds: seq<seq<nat>>, bound: nat): (r: Exchange.Option<seq<nat>>)
    ensures r.None? <==> forall j :: 0 <= j < |rounds| ==> BitsValue(rounds[j]) >= bound
    ensures r.Some? ==> exists j :: (0 <= j < |rounds| && r.value == rounds[j] &&
      BitsValue(rounds[j]) < bound && forall j' :: 0 <= j' < j ==> BitsValue(rounds[j']) >= bound)
  {
    if |rounds| == 0 then Exchange.None
    else if BitsValue(rounds[0]) < bound then Exchange.Some(rounds[0])
    else
      var rest := FirstBelow(rounds[1..], bound);
      assert forall j :: 1 <= j < |rounds| ==> rounds[1..][j - 1] == rounds[j];
      rest
  }

  /** random_number_bits: draw rounds of bits until one, read as a number,
      is below the bits of p (p truncated to the bit count), and return it.
      The rounds the source would draw forever are given; None when none of
      them is accepted. */
  method RandomNumberBits(svc: Service, rounds: seq<seq<nat>>) returns (res: Exchange.Option<seq<nat>>)
    requires 1 <= svc.pBitsSize < U16
    requires RoundsFit(svc, rounds)
    ensures res == FirstBelow(rounds, P % Pow2(svc.pBitsSize))
  {
    var k := svc.pBitsSize;
    ghost var bound := P % Pow2(k);
    var j := 0;
    while j < |rounds|
      invariant j <= |rounds|
      invariant FirstBelow(rounds[j..], bound) == FirstBelow(rounds, bound)
    {
      var pBits := ToBits(P, k);
      var check := LessBitwise(rounds[j], pBits[..]);
      assert rounds[j..][0] == rounds[j];
      if check == 1 {
        return Exchange.Some(rounds[j]);
      }
      assert rounds[j..][1..] == rounds[j + 1..];
      j := j + 1;
    }
    res := Exchange.None;
  }

  /** With the full 31 bits the bound is p itself: an accepted round is a
      field element. With the truncated 16 bits it is 65535. */
  lemma AcceptBound()
    ensures P % Pow2(BitsSize) == P
    ensures P % Pow2(PBitsSize()) == 65535
  {
    Pow2Landmarks();
    PBitsSizeTruncated();
  }

  // ---------------------------------------------------------------------
  // is_odd

  /** is_odd's r: the bits of the random number weighted by powers of two,
      each product reduced modulo p and the 64-bit total reduced at the
      end. */
  method ComposeBits(bits: seq<nat>) returns (r: nat)
    requires 1 <= |bits| <= 64
    requires IsBits(bits)
    ensures r == BitsValue(bits) % P
  {
    var sum: nat := bits[0];
    assert bits[..1] == [bits[0]];
    var i := 1;
    while i < |bits|
      invariant 1 <= i <= |bits|
      invariant sum % P == BitsValue(bits[..i]) % P
      invariant sum < i * P
    {
      MulLe(0, bits[i], Pow2(i));
      var t: nat := bits[i] * Pow2(i);
      ghost var prev := BitsValue(bits[..i]);
      assert bits[..i + 1][..i] == bits[..i];
      assert BitsValue(bits[..i + 1]) == prev + t;
      ComposeStep(sum, prev, t);
      sum := sum + t % P;
      i := i + 1;
    }
    assert bits[..i] == bits;
    r := sum % P;
  }

  /** Adding a term reduced modulo p keeps two congruent sums congruent. */
  lemma ComposeStep(sum: nat, prev: nat, t: nat)
    requires sum % P == prev % P
    ensures (sum + t % P) % P == (prev + t) % P
  {
    ModAdd(sum, t % P, P);
    ModOfMod(t, P);
    ModAdd(prev, t, P);
  }

  /** The value is_odd opens to, from the share x, the accepted random bits
      and the bit count: c = x + r opened, d the parity of r corrected by
      that of c, e whether c wrapped below r, and their XOR. */
  ghost function IsOddOutcome(x: nat, rBits: seq<nat>, k: nat): (r: nat)
    requires 1 <= |rBits| && IsBits(rBits)
    ensures r <= 1
  {
    var rv := BitsValue(rBits) % P;
    var c := (x + rv) % P;
    var d := if c % 2 == 0 then rBits[0] else (P - rBits[0] + 1) % P;
    var e := Ind(c % Pow2(k) < BitsValue(rBits));
    assert d <= 1;
    Xor(e, d)
  }

  /** is_odd: the parity of the share x, or None when no round of random
      bits is accepted. */
  method IsOdd(svc: Service, x: nat, rounds: seq<seq<nat>>) returns (res: Exchange.Option<nat>)
    requires x < P
    requires 1 <= svc.pBitsSize <= 64
    requires RoundsFit(svc, rounds)
    ensures var found := FirstBelow(rounds, P % Pow2(svc.pBitsSize));
      (res.None? <==> found.None?) &&
      (res.Some? ==> res.value == IsOddOutcome(x, found.value, svc.pBitsSize))
    ensures svc.pBitsSize == BitsSize && res.Some? ==> res.value == x % 2
  {
    var k := svc.pBitsSize;
    var found := RandomNumberBits(svc, rounds);
    if found.None? {
      return Exchange.None;
    }
    var rBits := found.value;
    FoundFits(svc, rounds, P % Pow2(k));
    var v := MaskedParity(x, rBits, k);
    res := Exchange.Some(v);
    if k == BitsSize {
      AcceptBound();
      IsOddCorrect(x, rBits);
    }
  }

  /** The opening of is_odd once the random bits are drawn: c = x + r,
      its parity corrected by r's first bit, and by the comparison of c's
      k bits with r's. */
  method MaskedParity(x: nat, rBits: seq<nat>, k: nat) returns (v: nat)
    requires x < P && 1 <= k <= 64
    requires |rBits| == k && IsBits(rBits)
    ensures v == IsOddOutcome(x, rBits, k)
  {
    var r := ComposeBits(rBits);
    var c := (x + r) % P;
    var d := if c % 2 == 0 then rBits[0] else (P - rBits[0] + 1) % P;
    var cBits := ToBits(c, k);
    var e := LessBitwise(cBits[..], rBits);
    v := Xor(e, d);
  }

  /** An accepted round is one of the rounds, so it has their shape. */
  lemma FoundFits(svc: Service, rounds: seq<seq<nat>>, bound: nat)
    requires RoundsFit(svc, rounds)
    requires FirstBelow(rounds, bound).Some?
    ensures var v := FirstBelow(rounds, bound).value;
      |v| == svc.pBitsSize && IsBits(v)
  {
  }

  /** With the full 31 bits is_odd opens to the parity of x: when x + r
      wraps past p, c is below r and the parity flips, which e corrects. */
  lemma IsOddCorrect(x: nat, rBits: seq<nat>)
    requires x < P
    requires |rBits| == BitsSize && IsBits(rBits) && BitsValue(rBits) < P
    ensures IsOddOutcome(x, rBits, BitsSize) == x % 2
  {
    var rv := BitsValue(rBits);
    SmallMod(rv, P);
    BitsParity(rBits);
    var c := (x + rv) % P;
    Pow2Landmarks();
    SmallMod(c, Pow2(BitsSize));
    ParityCorrection(c, rBits[0]);
    ParityRecovered(x, rv);
  }

  /** The arithmetic behind is_odd: c = x + r modulo p is below r exactly
      when the sum wrapped, and the parities of c and r then differ exactly
      when x is even; XOR-ing the two recovers the parity of x. */
  lemma ParityRecovered(x: nat, rv: nat)
    requires x < P && rv < P
    ensures var c := (x + rv) % P;
      Xor(Ind(c < rv), Ind(c % 2 != rv % 2)) == x % 2
  {
    var c := (x + rv) % P;
    if x + rv < P {
      DivModUnique(x + rv, P, 0, x + rv);
      NoWrapParity(x, rv, c);
    } else {
      DivModUnique(x + rv, P, 1, x + rv - P);
      WrapParity(x, rv, c);
    }
  }

  /** Without a wrap, c and r differ in parity exactly when x is odd. */
  lemma NoWrapParity(x: int, rv: int, c: int)
    requires c == x + rv
    ensures Ind(c % 2 != rv % 2) == x % 2
  {
    ModAdd(x, rv, 2);
  }

  /** After a wrap past the odd p, c and r differ in parity exactly when x
      is even. */
  lemma WrapParity(x: int, rv: int, c: int)
    requires c == x + rv - P
    ensures Ind(c % 2 != rv % 2) == 1 - x % 2
  {
    ModAdd(x, rv - P, 2);
    ModSub(rv, P, 2);
  }

  /** is_odd's d: the bit of r when c is even, its complement (p - r0 + 1
      modulo p) when c is odd; so 1 exactly when the parities differ. */
  lemma ParityCorrection(c: nat, r0: nat)
    requires r0 <= 1
    ensures (if c % 2 == 0 then r0 else (P - r0 + 1) % P) == Ind(c % 2 != r0)
  {
    ModMultipleAdd(1, 1 - r0, P);
    SmallMod(1 - r0, P);
  }

  /** A bit string whose only 1 is its lowest bit is worth 1. */
  lemma {:induction false} LowBitOnly(s: seq<nat>)
    requires |s| >= 1 && s[0] == 1
    requires forall i :: 1 <= i < |s| ==> s[i] == 0
    ensures BitsValue(s) == 1
  {
    if |s| > 1 {
      var s' := s[..|s| - 1];
      assert forall i :: 1 <= i < |s'| ==> s'[i] == s[i];
      LowBitOnly(s');
    }
  }

  /** With the truncated 16 bits (PBitsSize), is_odd of the odd share
      65535 opens to 0 when the accepted random number is 1 (its lowest bit
      set, the other 15 clear): c = 65536 reads as 0 in 16 bits, so e wrongly
      reports a wrap. */
  lemma IsOddMisses(svc: Service, rBits: seq<nat>)
    requires svc.pBitsSize == PBitsSize()
    requires |rBits| == svc.pBitsSize && rBits[0] == 1
    requires forall i :: 1 <= i < |rBits| ==> rBits[i] == 0
    ensures IsBits(rBits)
    ensures FirstBelow([rBits], P % Pow2(svc.pBitsSize)) == Exchange.Some(rBits)
    ensures IsOddOutcome(65535, rBits, svc.pBitsSize) == 0 && 65535 % 2 == 1
  {
    PBitsSizeTruncated();
    Pow2Landmarks();
    LowBitOnly(rBits);
    assert [rBits][0] == rBits;
    DivModUnique(P, Pow2(16), 0x7fff, 65535);
    OneOpensToZero(rBits);
  }

  /** The odd share 65535 masked by the random number 1, on 16 bits: c is
      65536, which reads as 0 below 2^16, so e is 1 and cancels d = 1. */
  lemma OneOpensToZero(rBits: seq<nat>)
    requires |rBits| >= 1 && IsBits(rBits) && rBits[0] == 1 && BitsValue(rBits) == 1
    ensures IsOddOutcome(65535, rBits, 16) == 0
  {
    Pow2Landmarks();
    SmallMod(1, P);
    SmallMod(65536, P);
    DivModUnique(65536, Pow2(16), 1, 0);
    assert Xor(1, 1) == 0;
  }

  // ---------------------------------------------------------------------
  // less

  /** less's closing arithmetic on the three parities w, x, y: with the
      complements x' = p - x + 1 and so on, c = x' y', d = x' + y' - c and
      e = w' (d - c), and the result 1 + e - d. On bits it is y when w and x
      agree and x otherwise. */
  function LessClosing(w: nat, x: nat, y: nat): (r: nat)
    requires w < P && x < P && y < P
    ensures r < P
    ensures w <= 1 && x <= 1 && y <= 1 ==> r == if w == x then y else x
  {
    var x' := P - x + 1;
    var y' := P - y + 1;
    var w' := P - w + 1;
    var c := Mul(x', y');
    var d := (P + x' + y' - c) % P;
    var e := Mul(w', (P + d - c) % P);
    if w <= 1 && x <= 1 && y <= 1 then
      ClosingOnBits(w, x, y, c, d, e);
      (P + 1 + e - d) % P
    else
      (P + 1 + e - d) % P
  }

  /** The complement p - b + 1 of a bit is 1 - b modulo p. */
  lemma Complement(b: nat)
    requires b <= 1
    ensures (P - b + 1) % P == 1 - b
  {
    ModMultipleAdd(1, 1 - b, P);
    SmallMod(1 - b, P);
  }

  /** The product of two complemented bits, as multiply opens it. */
  lemma ComplementProduct(u: nat, v: nat)
    requires u <= 1 && v <= 1
    ensures Mul(P - u + 1, P - v + 1) == (1 - u) * (1 - v)
  {
    Complement(u);
    Complement(v);
    ModMul(P - u + 1, P - v + 1, P);
    SmallMod((1 - u) * (1 - v), P);
  }

  /** less's closing steps on bits: c is the AND of the complements of x
      and y, d their OR, e = w' (d - c) their XOR masked by w', and 1 + e - d
      selects y or x. */
  lemma ClosingOnBits(w: nat, x: nat, y: nat, c: nat, d: nat, e: nat)
    requires w <= 1 && x <= 1 && y <= 1
    requires c == Mul(P - x + 1, P - y + 1)
    requires d == (P + (P - x + 1) + (P - y + 1) - c) % P
    requires e == Mul(P - w + 1, (P + d - c) % P)
    ensures (P + 1 + e - d) % P == if w == x then y else x
  {
    ComplementProduct(x, y);
    var d0 := (1 - x) + (1 - y) - c;
    assert 0 <= d0 <= 1;
    ModMultipleAdd(2, d0, P);
    SmallMod(d0, P);
    assert d == d0;
    ModMultipleAdd(1, d - c, P);
    SmallMod(d - c, P);
    ComplementProduct(w, 1 - (d - c));
    assert e == (1 - w) * (d - c);
    SmallMod(1 + e - d, P);
    ModMultipleAdd(1, 1 + e - d, P);
  }

  /** The half a field element lies in: 1 above (p - 1) / 2. */
  function Half(z: nat): nat
  {
    Ind(z > (P - 1) / 2)
  }

  /** Doubling a field element is odd exactly when it wraps past p, that is
      when the element lies in the upper half. */
  lemma DoubleParity(z: nat)
    requires z < P
    ensures ((z * 2) % P) % 2 == Half(z)
  {
    if z * 2 < P {
      SmallMod(z * 2, P);
    } else {
      SmallMod(z * 2 - P, P);
      ModMultipleAdd(1, z * 2 - P, P);
    }
  }

  /** a < b decided by halves: when a and b lie in the same half, by the
      half of a - b; otherwise by the half of b. */
  lemma LessFromHalves(a: nat, b: nat)
    requires a < P && b < P
    ensures (if Half(a) == Half(b) then Half((P + a - b) % P) else Half(b)) == Ind(a < b)
  {
    if a < b {
      SmallMod(P + a - b, P);
    } else {
      SmallMod(a - b, P);
      ModMultipleAdd(1, a - b, P);
    }
  }

  /** less: 1 when a < b, from the parities of 2a, 2b and 2(a - b); None when
      one of the three is_odd calls accepts no round. */
  method Less(svc: Service, a: nat, b: nat, roundsW: seq<seq<nat>>, roundsX: seq<seq<nat>>,
      roundsY: seq<seq<nat>>) returns (res: Exchange.Option<nat>)
    requires a < P && b < P
    requires 1 <= svc.pBitsSize <= 64
    requires RoundsFit(svc, roundsW) && RoundsFit(svc, roundsX) && RoundsFit(svc, roundsY)
    ensures var bound := P % Pow2(svc.pBitsSize);
      res.None? <==> (FirstBelow(roundsW, bound).None? || FirstBelow(roundsX, bound).None? ||
        FirstBelow(roundsY, bound).None?)
    ensures svc.pBitsSize == BitsSize && res.Some? ==> res.value == Ind(a < b)
  {
    var w := IsOdd(svc, (a * 2) % P, roundsW);
    var x := IsOdd(svc, (b * 2) % P, roundsX);
    var y := IsOdd(svc, ((P + a - b) * 2) % P, roundsY);
    if w.None? || x.None? || y.None? {
      return Exchange.None;
    }
    res := Exchange.Some(LessClosing(w.value, x.value, y.value));
    if svc.pBitsSize == BitsSize {
      DoubleParity(a);
      DoubleParity(b);
      DifferenceDoubled(a, b);
      DoubleParity((P + a - b) % P);
      LessFromHalves(a, b);
    }
  }

  /** Doubling p + a - b modulo p doubles the field difference a - b. */
  lemma DifferenceDoubled(a: nat, b: nat)
    requires a < P && b < P
    ensures ((P + a - b) * 2) % P == (((P + a - b) % P) * 2) % P
  {
    ModMul(P + a - b, 2, P);
    SmallMod(2, P);
  }
}
