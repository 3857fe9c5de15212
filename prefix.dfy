/** mpc_service::prefix_or on plaintext bits: the input is cut into blocks of
    lambda = ceil_sqrt(n) bits, the OR of each block and the running OR over
    blocks locate the block holding the first one, and a second running OR
    inside that block locates the first one itself. Every exchange is taken
    at its plaintext meaning: multiply is the field product and fan_in_or the
    OR of its bits. */
module Prefix {
  import opened Arith
  import opened Modulus
  import opened Field
  import opened Calc
  import opened Mpc

  function Min(a: nat, b: nat): nat
  {
    if a <= b then a else b
  }

  /** A condition as a bit. */
  function Ind(b: bool): nat
  {
    if b then 1 else 0
  }

  /** The index of the first 1 in s, or |s| when there is none. */
  ghost function First(s: seq<nat>): (r: nat)
    ensures r <= |s|
    ensures forall i :: 0 <= i < r ==> s[i] != 1
    ensures r < |s| ==> s[r] == 1
  {
    if |s| == 0 then 0
    else if s[0] == 1 then 0
    else
      var r := 1 + First(s[1..]);
      assert forall i :: 1 <= i < r ==> s[i] == s[1..][i - 1];
      r
  }

  /** The OR of a prefix is 1 exactly when the first 1 lies inside it. */
  lemma {:induction false} OrPrefix(s: seq<nat>, j: nat)
    requires j <= |s|
    ensures Or(s[..j]) == Ind(First(s) < j)
  {
    var f := First(s);
    if f < j {
      assert s[..j][f] == 1;
    } else {
      forall k | 0 <= k < j
        ensures s[..j][k] != 1
      {
        assert s[..j][k] == s[k];
      }
    }
  }

  /** Any slice of bits is bits. */
  lemma {:induction false} BitsSlice(s: seq<nat>, lo: nat, hi: nat)
    requires IsBits(s) && lo <= hi <= |s|
    ensures IsBits(s[lo..hi])
    ensures forall i :: 0 <= i < hi - lo ==> s[lo..hi][i] < U32
  {
    forall i | 0 <= i < hi - lo
      ensures s[lo..hi][i] <= 1
    {
      assert s[lo..hi][i] == s[lo + i];
    }
  }


  // ---------------------------------------------------------------------
  // Rows and columns of the lambda x lambda layout. The nested loops of
  // prefix_or walk a flat index ij = i * L + j; Times, Row and Col state
  // that layout by repeated addition, so that the proofs stay linear.

  /** i * L, one row of L at a time. */
  ghost function Times(i: nat, L: nat): nat
  {
    if i == 0 then 0 else Times(i - 1, L) + L
  }

  /** The row of a flat index. */
  ghost function Row(k: nat, L: nat): nat
    requires L >= 1
  {
    if k < L then 0 else 1 + Row(k - L, L)
  }

  /** The column of a flat index. */
  ghost function Col(k: nat, L: nat): (j: nat)
    requires L >= 1
    ensures j < L
  {
    if k < L then k else Col(k - L, L)
  }

  lemma {:induction false} TimesIsMul(i: nat, L: nat)
    ensures Times(i, L) == i * L
  {
    if i > 0 {
      TimesIsMul(i - 1, L);
    }
  }

  lemma {:induction false} TimesMono(i: nat, j: nat, L: nat)
    requires i <= j
    ensures Times(i, L) <= Times(j, L)
  {
    if i < j {
      TimesMono(i, j - 1, L);
    }
  }

  /** Every index is its row start plus its column, as k = (k / L) * L + k % L. */
  lemma {:induction false} RowCol(k: nat, L: nat)
    requires L >= 1
    ensures k == Times(Row(k, L), L) + Col(k, L)
  {
    if k >= L {
      RowCol(k - L, L);
    }
  }

  /** Row and Col are the quotient and remainder by L. */
  lemma {:induction false} RowColIsDivMod(k: nat, L: nat)
    requires L >= 1
    ensures Row(k, L) == k / L && Col(k, L) == k % L
  {
    RowCol(k, L);
    TimesIsMul(Row(k, L), L);
    DivModUnique(k, L, Row(k, L), Col(k, L));
  }

  /** Row i, column j is the index Times(i, L) + j. */
  lemma {:induction false} RowColOf(i: nat, j: nat, L: nat)
    requires j < L
    ensures Row(Times(i, L) + j, L) == i && Col(Times(i, L) + j, L) == j
  {
    if i > 0 {
      RowColOf(i - 1, j, L);
      assert Times(i, L) + j - L == Times(i - 1, L) + j;
    }
  }

  /** An index lies in row i exactly when it is in [Times(i, L), Times(i, L) + L). */
  lemma {:induction false} RowBounds(k: nat, L: nat, i: nat)
    requires L >= 1
    ensures Row(k, L) == i <==> Times(i, L) <= k < Times(i, L) + L
    ensures k < Times(i, L) <==> Row(k, L) < i
  {
    var q := Row(k, L);
    RowCol(k, L);
    if q < i {
      TimesMono(q + 1, i, L);
    } else {
      TimesMono(i, q, L);
    }
    if q > i {
      TimesMono(i + 1, q, L);
    }
  }

  /** The number of blocks of width L that cover n bits: the x loop starts
      one block at each multiple of L below n. */
  ghost function BlockCount(n: nat, L: nat): (m: nat)
    requires L >= 1
    ensures Times(m, L) >= n
    ensures m == 0 || Times(m - 1, L) < n
  {
    if n == 0 then 0 else if n <= L then 1 else 1 + BlockCount(n - L, L)
  }

  /** Only one count of blocks has both properties of BlockCount. */
  lemma {:induction false} BlockCountUnique(n: nat, L: nat, m: nat)
    requires L >= 1 && Times(m, L) >= n && (m == 0 || Times(m - 1, L) < n)
    ensures m == BlockCount(n, L)
  {
    var b := BlockCount(n, L);
    if m < b {
      TimesMono(m, b - 1, L);
    } else if m > b {
      TimesMono(b, m - 1, L);
    }
  }

  /** Every index below n is in one of the blocks. */
  lemma {:induction false} RowInBlocks(k: nat, L: nat, n: nat)
    requires L >= 1 && k < n
    ensures Row(k, L) < BlockCount(n, L)
  {
    RowBounds(k, L, BlockCount(n, L));
  }

  /** BlockCount is the least count of blocks that covers n bits. */
  lemma {:induction false} BlockCountLeast(n: nat, L: nat, m: nat)
    requires L >= 1 && Times(m, L) >= n
    ensures BlockCount(n, L) <= m
  {
    if n > L {
      BlockCountLeast(n - L, L, m - 1);
    }
  }

  /** ceil_sqrt of a positive length lies between 1 and the length. */
  lemma {:induction false} LambdaRange(n: nat, L: nat)
    requires n >= 1 && L * L >= n && (L == 0 || (L - 1) * (L - 1) < n)
    ensures 1 <= L <= n
  {
    if L >= 2 {
      MulLe(1, L - 1, L - 1);
    }
  }

  /** Since n <= L * L, there are at most L blocks. */
  lemma {:induction false} BlocksWithinLambda(n: nat, L: nat)
    requires L >= 1 && L * L >= n
    ensures BlockCount(n, L) <= L
  {
    TimesIsMul(L, L);
    BlockCountLeast(n, L, L);
  }

  /** The y and h loops read lambda entries of x and c. c has lambda entries,
      but x has one per block, which is lambda only when n exceeds
      (lambda - 1) * lambda. */
  lemma {:induction false} LambdaBlocks(n: nat, L: nat)
    requires L >= 1 && L * L >= n
    ensures BlockCount(n, L) == L <==> (L - 1) * L < n
  {
    TimesIsMul(L, L);
    TimesIsMul(L - 1, L);
    if (L - 1) * L < n {
      BlockCountUnique(n, L, L);
    }
  }

  /** The smallest input on which the y loop as written reads past x: for
      two bits lambda is 2 but there is one block. */
  lemma {:induction false} ShortBlockCount()
    ensures CeilSqrt(ToU16(2)) == 2
    ensures BlockCount(2, CeilSqrt(ToU16(2))) == 1
  {
    assert ToU16(2) == 2;
    assert CeilSqrtFrom(2, 0) == 2;
  }

  // ---------------------------------------------------------------------
  // The stages of prefix_or

  /** x[q] is the OR of block q of a, whose last block holds what is left. */
  ghost predicate IsBlockOrs(x: seq<nat>, a: seq<nat>, L: nat)
  {
    forall q {:trigger x[q]} :: 0 <= q < |x| ==>
      Times(q, L) < |a| && x[q] == Or(a[Times(q, L) .. Min(Times(q, L) + L, |a|)])
  }

  /** One more block OR, of the block that starts at the end of the last. */
  lemma {:induction false} BlocksStep(x: seq<nat>, a: seq<nat>, L: nat, v: nat)
    requires L >= 1 && Times(|x|, L) < |a|
    requires IsBlockOrs(x, a, L)
    requires v == Or(a[Times(|x|, L) .. Min(Times(|x|, L) + L, |a|)])
    ensures IsBlockOrs(x + [v], a, L)
  {
    var x' := x + [v];
    forall q | 0 <= q < |x'|
      ensures Times(q, L) < |a| && x'[q] == Or(a[Times(q, L) .. Min(Times(q, L) + L, |a|)])
    {
      if q < |x| {
        assert x'[q] == x[q];
      }
    }
  }

  /** The x loop: fan_in_or of each block of L consecutive bits. */
  method Blocks(a: seq<nat>, L: nat) returns (x: seq<nat>)
    requires 1 <= |a| < P && L >= 1
    requires IsBits(a)
    ensures |x| == BlockCount(|a|, L)
    ensures IsBlockOrs(x, a, L)
  {
    x := [];
    var i := 0;
    while i < |a|
      invariant i == Times(|x|, L)
      invariant |x| == 0 || Times(|x| - 1, L) < |a|
      invariant IsBlockOrs(x, a, L)
    {
      var hi := Min(i + L, |a|);
      BitsSlice(a, i, hi);
      var v := FanInOr(a[i..hi]);
      BlocksStep(x, a, L, v);
      x := x + [v];
      i := i + L;
    }
    BlockCountUnique(|a|, L, |x|);
  }

  /** Entry i of r is the OR of the first i + 1 entries of v. */
  ghost predicate PrefixOrs(v: seq<nat>, r: seq<nat>)
  {
    |r| <= |v| && forall i :: 0 <= i < |r| ==> r[i] == Or(v[..i + 1])
  }

  /** The y and h loops: for i = 1 .. count, fan_in_or of the first i
      entries. Here count must not exceed the entries there are. fan_in_or
      computes an OR only on bits. */
  method Prefixes(v: seq<nat>, count: nat) returns (r: seq<nat>)
    requires count <= |v| < P
    requires forall i :: 0 <= i < |v| ==> v[i] < U32
    ensures |r| == count
    ensures IsBits(v) ==> PrefixOrs(v, r)
  {
    r := [];
    var i := 1;
    while i <= count
      invariant 1 <= i <= count + 1
      invariant |r| == i - 1
      invariant IsBits(v) ==> forall k :: 0 <= k < i - 1 ==> r[k] == Or(v[..k + 1])
    {
      assert forall k :: 0 <= k < i ==> v[..i][k] == v[k];
      if IsBits(v) {
        BitsSlice(v, 0, i);
      }
      var o := FanInOr(v[..i]);
      r := r + [o];
      i := i + 1;
    }
  }

  /** The subtraction of two shares as written: a uint32 difference, which
      wraps modulo 2^32. */
  function DiffAsWritten(cur: nat, prev: nat): (d: nat)
    ensures d < U32 && (d + prev) % U32 == cur % U32
  {
    ModAdd(cur - prev, prev, U32);
    ModOfMod(cur - prev, U32);
    ModAdd((cur - prev) % U32, prev, U32);
    (cur - prev) % U32
  }

  /** A share that is smaller than the one before it wraps to 2^32 - 1
      rather than to p - 1; as 2^32 is 2 modulo p, the field value is off
      by 2. */
  lemma {:induction false} DiffAsWrittenWraps()
    ensures DiffAsWritten(0, 1) == U32 - 1
    ensures DiffAsWritten(0, 1) % P == 1
    ensures Diff(0, 1) == P - 1
  {
  }

  /** The subtraction of two shares in the field: the d with d + prev = cur
      modulo p. */
  function Diff(cur: nat, prev: nat): (d: nat)
    requires prev < P
    ensures d < P && (d + prev) % P == cur % P
  {
    ModAdd(cur - prev, prev, P);
    ModOfMod(cur - prev, P);
    ModSubResidue(cur, prev, P);
    SmallMod(prev, P);
    (P + cur - prev) % P
  }

  /** f[0] = y[0], then each f[i] is y[i] - y[i - 1] in the field. */
  ghost predicate IsDifferences(y: seq<nat>, f: seq<nat>)
    requires forall i :: 0 <= i < |y| ==> y[i] < P
  {
    |f| == |y| >= 1 && f[0] == y[0] &&
    forall i :: 1 <= i < |y| ==> f[i] == Diff(y[i], y[i - 1])
  }

  /** The f loop, with the field subtraction: f[0] = y[0], then each f[i] is
      y[i] - y[i - 1]. */
  method Differences(y: seq<nat>) returns (f: array<nat>)
    requires |y| >= 1
    requires forall i :: 0 <= i < |y| ==> y[i] < P
    ensures fresh(f) && IsDifferences(y, f[..])
  {
    f := new nat[|y|];
    f[0] := y[0];
    var i := 1;
    while i < |y|
      invariant 1 <= i <= |y|
      invariant f[0] == y[0]
      invariant forall k :: 1 <= k < i ==> f[k] == Diff(y[k], y[k - 1])
    {
      f[i] := Diff(y[i], y[i - 1]);
      i := i + 1;
    }
  }

  /** The first count entries of g are the products of the g loop. */
  ghost predicate ProductsUpTo(g: seq<nat>, f: seq<nat>, a: seq<nat>, L: nat, count: nat)
    requires L >= 1
  {
    count <= |g| && count <= |a| &&
    forall k {:trigger g[k]} :: 0 <= k < count ==> Row(k, L) < |f| && g[k] == Mul(f[Row(k, L)], a[k])
  }

  /** One more product, at row i and column j. */
  lemma {:induction false} ProductsStep(g: seq<nat>, f: seq<nat>, a: seq<nat>, L: nat, i: nat, j: nat)
    requires L >= 1 && j < L && |g| == Times(i, L) + j < |a|
    requires |f| == BlockCount(|a|, L)
    requires ProductsUpTo(g, f, a, L, |g|)
    ensures i < |f|
    ensures ProductsUpTo(g + [Mul(f[i], a[|g|])], f, a, L, |g| + 1)
  {
    RowColOf(i, j, L);
    RowInBlocks(|g|, L, |a|);
    var g' := g + [Mul(f[i], a[|g|])];
    forall k | 0 <= k < |g'|
      ensures Row(k, L) < |f| && g'[k] == Mul(f[Row(k, L)], a[k])
    {
      if k < |g| {
        assert g'[k] == g[k];
      }
    }
  }

  /** The g loop: entry i * L + j is f[i] times a[i * L + j]. */
  method BlockProducts(f: seq<nat>, a: seq<nat>, L: nat) returns (g: seq<nat>)
    requires L >= 1 && |f| == BlockCount(|a|, L) && |f| <= L
    ensures |g| == |a| && ProductsUpTo(g, f, a, L, |a|)
  {
    g := [];
    var i, ij := 0, 0;
    ghost var base := 0;
    while i < L
      invariant i <= L && ij == |g| <= |a| && base == Times(i, L)
      invariant ij <= base && (ij < |a| ==> ij == base)
      invariant ProductsUpTo(g, f, a, L, ij)
    {
      var j := 0;
      while j < L && ij < |a|
        invariant j <= L && ij == |g| <= |a|
        invariant ij <= base + j && (ij == base + j || ij == |a|)
        invariant ProductsUpTo(g, f, a, L, ij)
      {
        ProductsStep(g, f, a, L, i, j);
        g := g + [Mul(f[i], a[ij])];
        j, ij := j + 1, ij + 1;
      }
      base := base + L;
      i := i + 1;
    }
    TimesMono(|f|, L, L);
    assert ij == |a|;
  }

  /** Column j summed over the first rows rows of the layout of g. */
  ghost function ColumnSum(g: seq<nat>, L: nat, j: nat, rows: nat): nat
  {
    if rows == 0 then 0
    else
      var k := Times(rows - 1, L) + j;
      ColumnSum(g, L, j, rows - 1) + (if k < |g| then g[k] else 0)
  }

  /** Adding to a residue and reducing is adding and reducing. */
  lemma {:induction false} AddToResidue(sum: nat, v: nat)
    ensures (sum % P + v) % P == (sum + v) % P
  {
    ModAdd(sum, v, P);
    ModAdd(sum % P, v, P);
    ModOfMod(sum, P);
  }

  /** c[j] is column j of g summed over the blocks, modulo p. */
  ghost predicate ColumnSums(g: seq<nat>, L: nat, c: seq<nat>)
    requires L >= 1
  {
    |c| == L && forall j :: 0 <= j < L ==> c[j] == ColumnSum(g, L, j, BlockCount(|g|, L)) % P
  }

  /** The c loops: c starts at zero and each pass over a row of g adds
      g[i * L + j] to c[j] modulo p. */
  method Columns(g: seq<nat>, L: nat) returns (c: array<nat>)
    requires L >= 1
    ensures fresh(c) && ColumnSums(g, L, c[..])
  {
    c := new nat[L];
    var j := 0;
    while j < L
      invariant j <= L
      invariant forall j' :: 0 <= j' < j ==> c[j'] == 0
    {
      c[j] := 0;
      j := j + 1;
    }
    var ij := 0;
    ghost var rows := 0;
    while ij < |g|
      invariant ij <= |g| && ij <= Times(rows, L)
      invariant ij < |g| ==> ij == Times(rows, L)
      invariant rows == 0 || Times(rows - 1, L) < |g|
      invariant forall j' :: 0 <= j' < L ==> c[j'] == ColumnSum(g, L, j', rows) % P
      decreases |g| - ij
    {
      j := 0;
      while j < L && ij < |g|
        invariant j <= L && ij == Times(rows, L) + j <= |g|
        invariant forall j' :: 0 <= j' < j ==> c[j'] == ColumnSum(g, L, j', rows + 1) % P
        invariant forall j' :: j <= j' < L ==> c[j'] == ColumnSum(g, L, j', rows) % P
      {
        AddToResidue(ColumnSum(g, L, j, rows), g[ij]);
        c[j] := (c[j] + g[ij]) % P;
        j, ij := j + 1, ij + 1;
      }
      forall j' | j <= j' < L
        ensures ColumnSum(g, L, j', rows + 1) == ColumnSum(g, L, j', rows)
      {
      }
      rows := rows + 1;
    }
    BlockCountUnique(|g|, L, rows);
  }

  /** The entries of s so far are the products of the s loop. */
  ghost predicate OuterUpTo(s: seq<nat>, f: seq<nat>, h: seq<nat>, L: nat)
    requires L >= 1 && |h| == L
  {
    forall k {:trigger s[k]} :: 0 <= k < |s| ==> Row(k, L) < |f| && s[k] == Mul(f[Row(k, L)], h[Col(k, L)])
  }

  /** One more product, at row i and column j. */
  lemma {:induction false} OuterStep(s: seq<nat>, f: seq<nat>, h: seq<nat>, L: nat, i: nat, j: nat)
    requires L >= 1 && |h| == L && j < L && i < |f| && |s| == Times(i, L) + j
    requires OuterUpTo(s, f, h, L)
    ensures OuterUpTo(s + [Mul(f[i], h[j])], f, h, L)
  {
    var s' := s + [Mul(f[i], h[j])];
    RowColOf(i, j, L);
    forall k | 0 <= k < |s'|
      ensures Row(k, L) < |f| && s'[k] == Mul(f[Row(k, L)], h[Col(k, L)])
    {
      if k < |s| {
        assert s'[k] == s[k];
      }
    }
  }

  /** The s loop, over the rows there are: entry i * L + j is f[i] h[j]. */
  method OuterProducts(f: seq<nat>, h: seq<nat>, L: nat) returns (s: seq<nat>)
    requires L >= 1 && |h| == L
    ensures |s| == Times(|f|, L) && OuterUpTo(s, f, h, L)
  {
    s := [];
    var i := 0;
    while i < |f|
      invariant i <= |f| && |s| == Times(i, L)
      invariant OuterUpTo(s, f, h, L)
    {
      var j := 0;
      while j < L
        invariant j <= L && |s| == Times(i, L) + j
        invariant OuterUpTo(s, f, h, L)
      {
        OuterStep(s, f, h, L, i, j);
        s := s + [Mul(f[i], h[j])];
        j := j + 1;
      }
      i := i + 1;
    }
  }

  /** The first count entries of b are those of the b loop. */
  ghost predicate CombinedUpTo(b: seq<nat>, s: seq<nat>, y: seq<nat>, f: seq<nat>, L: nat, count: nat)
    requires L >= 1 && |y| == |f|
  {
    count <= |b| && count <= |s| &&
    forall k {:trigger b[k]} :: 0 <= k < count ==>
      Row(k, L) < |f| && b[k] == (P + s[k] + y[Row(k, L)] - f[Row(k, L)]) % P
  }

  /** The flat index of row i, column j lies in row i, one of the blocks. */
  lemma {:induction false} FlatIndex(i: nat, j: nat, L: nat, n: nat)
    requires L >= 1 && j < L && Times(i, L) + j < n
    ensures Row(Times(i, L) + j, L) == i && i < BlockCount(n, L)
  {
    RowColOf(i, j, L);
    RowInBlocks(Times(i, L) + j, L, n);
  }

  /** One more entry of b, at index idx of row i. */
  lemma {:induction false} CombineStep(b: seq<nat>, s: seq<nat>, y: seq<nat>, f: seq<nat>, L: nat, idx: nat, i: nat)
    requires L >= 1 && |y| == |f|
    requires idx < |b| <= |s| && i < |f| && Row(idx, L) == i
    requires CombinedUpTo(b, s, y, f, L, idx)
    ensures CombinedUpTo(b[idx := (P + s[idx] + y[i] - f[i]) % P], s, y, f, L, idx + 1)
  {
    var b' := b[idx := (P + s[idx] + y[i] - f[i]) % P];
    forall k | 0 <= k < idx + 1
      ensures Row(k, L) < |f| && b'[k] == (P + s[k] + y[Row(k, L)] - f[Row(k, L)]) % P
    {
      if k < idx {
        assert b'[k] == b[k];
      }
    }
  }

  /** The b loop: b[i * L + j] = s[i * L + j] + y[i] - f[i] modulo p. */
  method Combine(s: seq<nat>, y: seq<nat>, f: seq<nat>, L: nat, n: nat) returns (b: array<nat>)
    requires L >= 1 && |f| == BlockCount(n, L) && |f| <= L && |y| == |f| && |s| == Times(|f|, L)
    ensures fresh(b) && b.Length == n && CombinedUpTo(b[..], s, y, f, L, n)
  {
    b := new nat[n];
    TimesMono(|f|, |f|, L);
    var i, ij := 0, 0;
    ghost var base := 0;
    while i < L
      invariant i <= L && ij <= n && base == Times(i, L)
      invariant ij <= base && (ij < n ==> ij == base)
      invariant CombinedUpTo(b[..], s, y, f, L, ij)
    {
      var j := 0;
      while j < L && ij < n
        invariant j <= L && ij <= n
        invariant ij <= base + j && (ij == base + j || ij == n)
        invariant CombinedUpTo(b[..], s, y, f, L, ij)
      {
        FlatIndex(i, j, L, n);
        CombineStep(b[..], s, y, f, L, ij, i);
        b[ij] := (P + s[ij] + y[i] - f[i]) % P;
        j, ij := j + 1, ij + 1;
      }
      base := base + L;
      i := i + 1;
    }
    TimesMono(|f|, L, L);
    assert ij == n;
  }

  // ---------------------------------------------------------------------
  // What each stage holds on bits; F is the index of the first one.

  /** A slice that holds a one has OR 1. */
  lemma {:induction false} OrSliceHit(s: seq<nat>, lo: nat, hi: nat, k: nat)
    requires lo <= k < hi <= |s| && s[k] == 1
    ensures Or(s[lo..hi]) == 1
  {
    assert s[lo..hi][k - lo] == 1;
  }

  /** A slice that ends at or before the first one has OR 0. */
  lemma {:induction false} OrSliceMiss(s: seq<nat>, lo: nat, hi: nat)
    requires lo <= hi <= |s| && hi <= First(s)
    ensures Or(s[lo..hi]) == 0
  {
    forall e | 0 <= e < hi - lo
      ensures s[lo..hi][e] != 1
    {
      assert s[lo..hi][e] == s[lo + e];
    }
  }

  /** Entry q of x is the OR of block q. */
  lemma {:induction false} BlockOrAt(x: seq<nat>, a: seq<nat>, L: nat, q: nat)
    requires L >= 1 && IsBlockOrs(x, a, L) && q < |x|
    ensures Times(q, L) < |a| && x[q] == Or(a[Times(q, L) .. Min(Times(q, L) + L, |a|)])
  {
    ghost var xq := x[q];  // the instance of IsBlockOrs at q
  }

  /** A block that holds a one has OR 1. */
  lemma {:induction false} BlockHit(x: seq<nat>, a: seq<nat>, L: nat, q: nat, k: nat)
    requires L >= 1 && IsBlockOrs(x, a, L) && q < |x|
    requires Times(q, L) <= k < Times(q, L) + L && k < |a| && a[k] == 1
    ensures x[q] == 1
  {
    BlockOrAt(x, a, L, q);
    OrSliceHit(a, Times(q, L), Min(Times(q, L) + L, |a|), k);
  }

  /** The block OR of the block that holds the first one is 1. */
  lemma {:induction false} BlockOfFirst(a: seq<nat>, L: nat, x: seq<nat>, i: nat)
    requires L >= 1 && |x| == BlockCount(|a|, L) && i < |x|
    requires IsBlockOrs(x, a, L)
    requires First(a) < Min(Times(i + 1, L), |a|)
    ensures Row(First(a), L) <= i && x[Row(First(a), L)] == 1
  {
    var F := First(a);
    var q := Row(F, L);
    RowCol(F, L);
    RowBounds(F, L, i + 1);
    assert q < i + 1;
    BlockHit(x, a, L, q, F);
  }

  /** Blocks that end at or before the first one have OR 0. */
  lemma {:induction false} BlocksBeforeFirst(a: seq<nat>, L: nat, x: seq<nat>, i: nat, q: nat)
    requires L >= 1 && |x| == BlockCount(|a|, L) && q <= i < |x|
    requires IsBlockOrs(x, a, L)
    requires Min(Times(i + 1, L), |a|) <= First(a)
    ensures x[q] == 0
  {
    TimesMono(q + 1, i + 1, L);
    assert Times(q + 1, L) == Times(q, L) + L;
    ghost var xq := x[q];  // the instance of IsBlockOrs at q
    OrSliceMiss(a, Times(q, L), Min(Times(q, L) + L, |a|));
  }

  /** y[i], the OR of the first i + 1 block ORs, tells whether the first one
      lies before the end of block i. */
  lemma {:induction false} BlockPrefixOr(a: seq<nat>, L: nat, x: seq<nat>, i: nat)
    requires L >= 1 && |x| == BlockCount(|a|, L) && i < |x|
    requires IsBlockOrs(x, a, L)
    ensures Or(x[..i + 1]) == Ind(First(a) < Min(Times(i + 1, L), |a|))
  {
    var t := x[..i + 1];
    if First(a) < Min(Times(i + 1, L), |a|) {
      BlockOfFirst(a, L, x, i);
      assert t[Row(First(a), L)] == 1;
    } else {
      forall q | 0 <= q < i + 1
        ensures t[q] != 1
      {
        BlocksBeforeFirst(a, L, x, i, q);
      }
    }
  }

  lemma {:induction false} YValues(a: seq<nat>, L: nat, x: seq<nat>, y: seq<nat>)
    requires L >= 1 && |x| == BlockCount(|a|, L) && |y| == |x|
    requires IsBlockOrs(x, a, L)
    requires PrefixOrs(x, y)
    ensures forall i :: 0 <= i < |y| ==> y[i] == Ind(First(a) < Min(Times(i + 1, L), |a|))
  {
    forall i | 0 <= i < |y|
      ensures y[i] == Ind(First(a) < Min(Times(i + 1, L), |a|))
    {
      BlockPrefixOr(a, L, x, i);
    }
  }

  /** f[i] is 1 exactly on the block that holds the first one. */
  lemma {:induction false} FValue(F: nat, n: nat, L: nat, i: nat, yi: nat, fi: nat)
    requires L >= 1
    requires yi == Ind(F < Min(Times(i + 1, L), n))
    requires i == 0 ==> fi == yi
    requires i > 0 ==> fi == Diff(yi, Ind(F < Min(Times(i, L), n)))
    ensures fi == Ind(F < n && Row(F, L) == i)
  {
    RowBounds(F, L, i);
  }

  lemma {:induction false} FValues(a: seq<nat>, L: nat, y: seq<nat>, f: seq<nat>)
    requires L >= 1
    requires forall i :: 0 <= i < |y| ==> y[i] == Ind(First(a) < Min(Times(i + 1, L), |a|))
    requires forall i :: 0 <= i < |y| ==> y[i] < P
    requires IsDifferences(y, f)
    ensures forall i :: 0 <= i < |f| ==> f[i] == Ind(First(a) < |a| && Row(First(a), L) == i)
  {
    forall i | 0 <= i < |f|
      ensures f[i] == Ind(First(a) < |a| && Row(First(a), L) == i)
    {
      if i > 0 {
        assert y[i - 1] == Ind(First(a) < Min(Times(i - 1 + 1, L), |a|));
        assert i - 1 + 1 == i;
      }
      FValue(First(a), |a|, L, i, y[i], f[i]);
    }
  }

  /** g keeps the bits of the block that holds the first one. */
  lemma {:induction false} GValues(a: seq<nat>, L: nat, f: seq<nat>, g: seq<nat>)
    requires L >= 1 && IsBits(a) && |g| == |a|
    requires forall i :: 0 <= i < |f| ==> f[i] == Ind(First(a) < |a| && Row(First(a), L) == i)
    requires ProductsUpTo(g, f, a, L, |a|)
    ensures forall k {:trigger g[k]} :: 0 <= k < |a| ==>
      g[k] == if First(a) < |a| && Row(First(a), L) == Row(k, L) then a[k] else 0
  {
  }

  /** The start of the block that holds the first one. */
  ghost function FirstRowStart(a: seq<nat>, L: nat): nat
    requires L >= 1
  {
    Times(Row(First(a), L), L)
  }

  /** Summing column j keeps only the entry of that block. */
  lemma {:induction false} ColumnSumValue(a: seq<nat>, L: nat, g: seq<nat>, j: nat, rows: nat)
    requires L >= 1 && j < L && |g| == |a|
    requires forall k {:trigger g[k]} :: 0 <= k < |a| ==>
      g[k] == if First(a) < |a| && Row(First(a), L) == Row(k, L) then a[k] else 0
    ensures ColumnSum(g, L, j, rows) ==
      if First(a) < |a| && Row(First(a), L) < rows && FirstRowStart(a, L) + j < |a|
      then a[FirstRowStart(a, L) + j] else 0
  {
    if rows > 0 {
      ColumnSumValue(a, L, g, j, rows - 1);
      RowColOf(rows - 1, j, L);
    }
  }

  /** c[j] is bit j of the block that holds the first one, or 0. */
  lemma {:induction false} CValues(a: seq<nat>, L: nat, g: seq<nat>, c: seq<nat>)
    requires L >= 1 && IsBits(a) && |g| == |a|
    requires forall k {:trigger g[k]} :: 0 <= k < |a| ==>
      g[k] == if First(a) < |a| && Row(First(a), L) == Row(k, L) then a[k] else 0
    requires ColumnSums(g, L, c)
    ensures forall j :: 0 <= j < L ==>
      c[j] == if First(a) < |a| && FirstRowStart(a, L) + j < |a| then a[FirstRowStart(a, L) + j] else 0
    ensures IsBits(c)
  {
    if First(a) < |a| {
      RowInBlocks(First(a), L, |a|);
    }
    forall j | 0 <= j < L
      ensures c[j] == if First(a) < |a| && FirstRowStart(a, L) + j < |a| then a[FirstRowStart(a, L) + j] else 0
    {
      ColumnSumValue(a, L, g, j, BlockCount(|g|, L));
    }
  }

  /** h[j] tells whether the first one lies within the first j + 1 columns
      of its block. */
  lemma {:induction false} HValue(a: seq<nat>, L: nat, c: seq<nat>, j: nat)
    requires L >= 1 && |c| == L && j < L
    requires forall j :: 0 <= j < L ==>
      c[j] == if First(a) < |a| && FirstRowStart(a, L) + j < |a| then a[FirstRowStart(a, L) + j] else 0
    ensures Or(c[..j + 1]) == Ind(First(a) < |a| && Col(First(a), L) <= j)
  {
    var F := First(a);
    var t := c[..j + 1];
    RowCol(F, L);
    if F < |a| && Col(F, L) <= j {
      assert t[Col(F, L)] == 1;
    } else {
      forall j' | 0 <= j' < j + 1
        ensures t[j'] != 1
      {
        assert t[j'] == c[j'];
      }
    }
  }

  lemma {:induction false} HValues(a: seq<nat>, L: nat, c: seq<nat>, h: seq<nat>)
    requires L >= 1 && |c| == L && |h| == L
    requires forall j :: 0 <= j < L ==>
      c[j] == if First(a) < |a| && FirstRowStart(a, L) + j < |a| then a[FirstRowStart(a, L) + j] else 0
    requires PrefixOrs(c, h)
    ensures forall j :: 0 <= j < L ==> h[j] == Ind(First(a) < |a| && Col(First(a), L) <= j)
  {
    forall j | 0 <= j < L
      ensures h[j] == Ind(First(a) < |a| && Col(First(a), L) <= j)
    {
      HValue(a, L, c, j);
    }
  }

  /** b[k] is 1 exactly when the first one is at k or before. */
  lemma {:induction false} BValue(F: nat, n: nat, L: nat, k: nat, sk: nat, yi: nat, fi: nat)
    requires L >= 1 && k < n
    requires sk == Mul(Ind(F < n && Row(F, L) == Row(k, L)), Ind(F < n && Col(F, L) <= Col(k, L)))
    requires yi == Ind(F < Min(Times(Row(k, L) + 1, L), n))
    requires fi == Ind(F < n && Row(F, L) == Row(k, L))
    ensures (P + sk + yi - fi) % P == Ind(F <= k)
  {
    RowCol(F, L);
    RowCol(k, L);
    RowBounds(F, L, Row(k, L));
  }

  lemma {:induction false} BValues(a: seq<nat>, L: nat, y: seq<nat>, f: seq<nat>, h: seq<nat>, s: seq<nat>, b: seq<nat>)
    requires L >= 1 && |y| == |f| && |h| == L && |b| == |a| && |a| <= |s|
    requires forall i :: 0 <= i < |y| ==> y[i] == Ind(First(a) < Min(Times(i + 1, L), |a|))
    requires forall i :: 0 <= i < |f| ==> f[i] == Ind(First(a) < |a| && Row(First(a), L) == i)
    requires forall j :: 0 <= j < L ==> h[j] == Ind(First(a) < |a| && Col(First(a), L) <= j)
    requires OuterUpTo(s, f, h, L)
    requires CombinedUpTo(b, s, y, f, L, |a|)
    ensures forall k :: 0 <= k < |a| ==> b[k] == Or(a[..k + 1])
  {
    forall k | 0 <= k < |a|
      ensures b[k] == Or(a[..k + 1])
    {
      var i := Row(k, L);
      BValue(First(a), |a|, L, k, s[k], y[i], f[i]);
      OrPrefix(a, k + 1);
    }
  }

  /** The stages together: whatever the stage loops hold, b[k] is the OR of
      the first k + 1 bits. */
  lemma {:induction false} StagesGivePrefixOr(a: seq<nat>, L: nat, x: seq<nat>, y: seq<nat>,
      f: seq<nat>, g: seq<nat>, c: seq<nat>, h: seq<nat>, s: seq<nat>, b: seq<nat>)
    requires 1 <= |a| && IsBits(a) && L >= 1
    requires |x| == BlockCount(|a|, L) && IsBlockOrs(x, a, L)
    requires |y| == |x| && PrefixOrs(x, y)
    requires IsDifferences(y, f)
    requires |g| == |a| && ProductsUpTo(g, f, a, L, |a|)
    requires ColumnSums(g, L, c)
    requires |h| == L && (IsBits(c) ==> PrefixOrs(c, h))
    requires |a| <= |s| && OuterUpTo(s, f, h, L)
    requires |b| == |a| && CombinedUpTo(b, s, y, f, L, |a|)
    ensures PrefixOrs(a, b)
  {
    YValues(a, L, x, y);
    FValues(a, L, y, f);
    GValues(a, L, f, g);
    CValues(a, L, g, c);
    HValues(a, L, c, h);
    BValues(a, L, y, f, h, s, b);
  }

  // ---------------------------------------------------------------------
  // prefix_or

  /** prefix_or: entry k is the OR of the first k + 1 bits. lambda is
      ceil_sqrt of the length as an unsigned short. */
  method PrefixOr(a: seq<nat>) returns (b: array<nat>)
    requires 1 <= |a| < U16
    requires IsBits(a)
    ensures fresh(b) && b.Length == |a| && PrefixOrs(a, b[..])
  {
    var n := |a|;
    SmallMod(n, U16);
    var L := CeilSqrt(ToU16(n));
    LambdaRange(n, L);
    BlocksWithinLambda(n, L);
    var x := Blocks(a, L);
    assert IsBits(x);
    var y := Prefixes(x, |x|);
    var f := Differences(y);
    var g := BlockProducts(f[..], a, L);
    var c := Columns(g, L);
    var h := Prefixes(c[..], L);
    var s := OuterProducts(f[..], h, L);
    TimesMono(BlockCount(n, L), BlockCount(n, L), L);
    b := Combine(s, y, f[..], L, n);
    StagesGivePrefixOr(a, L, x, y, f[..], g, c[..], h, s, b[..]);
  }
}
