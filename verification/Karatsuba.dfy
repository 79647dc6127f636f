/** `karatsubaMultiply`: recursive Karatsuba agrees with the schoolbook convolution at every
    position, and within which operand sizes its 64-bit intermediates cannot overflow. */
module Karatsuba {
  import opened Digits

  const CUTOFF: nat := 32

  /** Coefficient `i` of a polynomial, zero outside its vector. */
  function At(a: seq<int>, i: int): int { if 0 <= i < |a| then a[i] else 0 }

  /** The first `n` terms of coefficient `m` of the product. */
  function Terms(a: seq<int>, b: seq<int>, m: int, n: nat): int {
    if n == 0 then 0 else Terms(a, b, m, n - 1) + At(a, n - 1) * At(b, m - (n - 1))
  }

  /** Coefficient `m` of the product: the schoolbook convolution. */
  function Coef(a: seq<int>, b: seq<int>, m: int): int { Terms(a, b, m, |a|) }

  function Convolution(a: seq<int>, b: seq<int>): seq<int> {
    seq(|a| + |b|, m => Coef(a, b, m))
  }

  /** Sizes the recursion handles: it must halve evenly down to the cutoff. */
  predicate Splittable(n: nat) {
    n <= CUTOFF || (n % 2 == 0 && Splittable(n / 2))
  }

  lemma {:induction false} TermsConcatLeft(a1: seq<int>, a2: seq<int>, b: seq<int>, m: int, j: nat)
    requires j <= |a2|
    ensures Terms(a1 + a2, b, m, |a1| + j) == Terms(a1, b, m, |a1|) + Terms(a2, b, m - |a1|, j)
  {
    if j == 0 {
      TermsPrefix(a1, a2, b, m, |a1|);
    } else {
      TermsConcatLeft(a1, a2, b, m, j - 1);
      assert At(a1 + a2, |a1| + j - 1) == At(a2, j - 1);
    }
  }

  lemma {:induction false} TermsPrefix(a1: seq<int>, a2: seq<int>, b: seq<int>, m: int, n: nat)
    requires n <= |a1|
    ensures Terms(a1 + a2, b, m, n) == Terms(a1, b, m, n)
  {
    if n > 0 {
      TermsPrefix(a1, a2, b, m, n - 1);
      assert At(a1 + a2, n - 1) == At(a1, n - 1);
    }
  }

  lemma {:induction false} TermsConcatRight(a: seq<int>, b1: seq<int>, b2: seq<int>, m: int, n: nat)
    ensures Terms(a, b1 + b2, m, n) == Terms(a, b1, m, n) + Terms(a, b2, m - |b1|, n)
  {
    if n > 0 {
      TermsConcatRight(a, b1, b2, m, n - 1);
      var x, k := At(a, n - 1), m - (n - 1);
      assert At(b1 + b2, k) == At(b1, k) + At(b2, k - |b1|);
      assert x * (At(b1, k) + At(b2, k - |b1|)) == x * At(b1, k) + x * At(b2, k - |b1|);
    }
  }

  lemma {:induction false} TermsAddLeft(a: seq<int>, a': seq<int>, c: seq<int>, b: seq<int>, m: int, n: nat)
    requires forall i :: At(c, i) == At(a, i) + At(a', i)
    ensures Terms(c, b, m, n) == Terms(a, b, m, n) + Terms(a', b, m, n)
  {
    if n > 0 {
      TermsAddLeft(a, a', c, b, m, n - 1);
      var y := At(b, m - (n - 1));
      assert At(c, n - 1) * y == At(a, n - 1) * y + At(a', n - 1) * y;
    }
  }

  lemma {:induction false} TermsAddRight(a: seq<int>, b: seq<int>, b': seq<int>, c: seq<int>, m: int, n: nat)
    requires forall i :: At(c, i) == At(b, i) + At(b', i)
    ensures Terms(a, c, m, n) == Terms(a, b, m, n) + Terms(a, b', m, n)
  {
    if n > 0 {
      TermsAddRight(a, b, b', c, m, n - 1);
      var x, k := At(a, n - 1), m - (n - 1);
      assert x * At(c, k) == x * At(b, k) + x * At(b', k);
    }
  }

  /** Outside the product's degree there is nothing. */
  lemma {:induction false} TermsOutside(a: seq<int>, b: seq<int>, m: int, n: nat)
    requires n <= |a| && (m < 0 || m >= |a| + |b|)
    ensures Terms(a, b, m, n) == 0
  {
    if n > 0 {
      TermsOutside(a, b, m, n - 1);
      assert At(b, m - (n - 1)) == 0;
    }
  }

  lemma ConvolutionAt(a: seq<int>, b: seq<int>, m: int)
    ensures At(Convolution(a, b), m) == Coef(a, b, m)
  {
    if m < 0 || m >= |a| + |b| {
      TermsOutside(a, b, m, |a|);
    }
  }

  predicate IsSum(s: seq<int>, a: seq<int>, b: seq<int>) {
    |s| == |a| == |b| && forall i :: 0 <= i < |s| ==> s[i] == a[i] + b[i]
  }

  /** The product of the half sums is the four half products. */
  lemma FourProducts(a1: seq<int>, a2: seq<int>, b1: seq<int>, b2: seq<int>, sa: seq<int>, sb: seq<int>, m: int)
    requires IsSum(sa, a2, a1) && IsSum(sb, b2, b1) && |sa| == |sb|
    ensures Coef(sa, sb, m) == Coef(a1, b1, m) + Coef(a1, b2, m) + Coef(a2, b1, m) + Coef(a2, b2, m)
  {
    var k := |a1|;
    TermsAddLeft(a2, a1, sa, sb, m, k);
    TermsAddRight(a1, b2, b1, sb, m, k);
    TermsAddRight(a2, b2, b1, sb, m, k);
  }

  /** The identity behind the three recursive products. */
  lemma ThreeProducts(a1: seq<int>, a2: seq<int>, b1: seq<int>, b2: seq<int>, sa: seq<int>, sb: seq<int>, m: int)
    requires IsSum(sa, a2, a1) && IsSum(sb, b2, b1) && |sa| == |sb|
    ensures var k := |a1|;
            Coef(a1 + a2, b1 + b2, m) ==
            (Coef(sa, sb, m - k) - Coef(a1, b1, m - k) - Coef(a2, b2, m - k)) + Coef(a1, b1, m) + Coef(a2, b2, m - 2 * k)
  {
    var k := |a1|;
    TermsConcatLeft(a1, a2, b1 + b2, m, k);
    TermsConcatRight(a1, b1, b2, m, k);
    TermsConcatRight(a2, b1, b2, m - k, k);
    FourProducts(a1, a2, b1, b2, sa, sb, m - k);
  }

  /** `dst[off + i] += src[i]` for every `i`: the shape of the recombination loops. */
  method AddAt(dst: seq<int>, src: seq<int>, off: nat) returns (r: seq<int>)
    requires off + |src| <= |dst|
    ensures |r| == |dst|
    ensures forall j :: 0 <= j < |r| ==> r[j] == dst[j] + At(src, j - off)
  {
    r := dst;
    var i := 0;
    while i < |src|
      invariant 0 <= i <= |src| && |r| == |dst|
      invariant forall j :: 0 <= j < |r| ==> r[j] == if off <= j < off + i then dst[j] + src[j - off] else dst[j]
    {
      r := r[off + i := r[off + i] + src[i]];
      i := i + 1;
    }
  }

  /** `dst[i] -= src[i]` for every `i`. */
  method SubFrom(dst: seq<int>, src: seq<int>) returns (r: seq<int>)
    requires |src| == |dst|
    ensures |r| == |dst|
    ensures forall j :: 0 <= j < |r| ==> r[j] == dst[j] - src[j]
  {
    r := dst;
    var i := 0;
    while i < |src|
      invariant 0 <= i <= |src| && |r| == |dst|
      invariant forall j :: 0 <= j < |r| ==> r[j] == if j < i then dst[j] - src[j] else dst[j]
    {
      r := r[i := r[i] - src[i]];
      i := i + 1;
    }
  }

  /** The double loop below the cutoff. */
  method Schoolbook(a: seq<int>, b: seq<int>) returns (res: seq<int>)
    requires |a| == |b|
    ensures res == Convolution(a, b)
  {
    var n := |a|;
    res := seq(n + n, _ => 0);
    var i := 0;
    while i < n
      invariant 0 <= i <= n && |res| == n + n
      invariant forall m :: 0 <= m < n + n ==> res[m] == Terms(a, b, m, i)
    {
      var j := 0;
      while j < n
        invariant 0 <= j <= n && |res| == n + n
        invariant forall m :: 0 <= m < n + n ==> res[m] == Terms(a, b, m, i) + if i <= m < i + j then a[i] * At(b, m - i) else 0
      {
        res := res[i + j := res[i + j] + a[i] * b[j]];
        j := j + 1;
      }
      i := i + 1;
    }
  }

  /** `karatsubaMultiply`. */
  method Multiply(a: seq<int>, b: seq<int>) returns (res: seq<int>)
    requires |a| == |b| && Splittable(|a|)
    ensures res == Convolution(a, b)
    decreases |a|
  {
    var n := |a|;
    if n <= CUTOFF {
      res := Schoolbook(a, b);
      return;
    }
    var k := n / 2;
    var a1, a2, b1, b2 := a[..k], a[k..], b[..k], b[k..];
    var a1b1 := Multiply(a1, b1);
    var a2b2 := Multiply(a2, b2);
    var sa := AddAt(a2, a1, 0);
    var sb := AddAt(b2, b1, 0);
    var r := Multiply(sa, sb);
    res := Combine(r, a1b1, a2b2, k);
    Recombined(a, b, sa, sb, res);
  }

  function CombineAt(r: seq<int>, low: seq<int>, high: seq<int>, k: nat, m: int): int {
    (At(r, m - k) - At(low, m - k) - At(high, m - k)) + At(low, m) + At(high, m - 2 * k)
  }

  /** The five loops that put the three products together. */
  method Combine(r0: seq<int>, low: seq<int>, high: seq<int>, k: nat) returns (res: seq<int>)
    requires |r0| == |low| == |high| == 2 * k
    ensures |res| == 4 * k && forall m :: 0 <= m < 4 * k ==> res[m] == CombineAt(r0, low, high, k, m)
  {
    var r1 := SubFrom(r0, low);
    var r := SubFrom(r1, high);
    assert |r| == 2 * k && forall j :: At(r, j) == At(r0, j) - At(low, j) - At(high, j);
    var res1 := AddAt(seq(4 * k, _ => 0), r, k);
    var res2 := AddAt(res1, low, 0);
    res := AddAt(res2, high, 2 * k);
  }

  /** The recombined vector is the convolution. */
  lemma Recombined(a: seq<int>, b: seq<int>, sa: seq<int>, sb: seq<int>, res: seq<int>)
    requires |a| == |b| && |a| % 2 == 0
    requires IsSum(sa, a[|a| / 2..], a[..|a| / 2]) && IsSum(sb, b[|a| / 2..], b[..|a| / 2])
    requires var k := |a| / 2;
             && |res| == 4 * k
             && forall m :: 0 <= m < 4 * k ==>
                  res[m] == CombineAt(Convolution(sa, sb), Convolution(a[..k], b[..k]), Convolution(a[k..], b[k..]), k, m)
    ensures res == Convolution(a, b)
  {
    var k := |a| / 2;
    var a1, a2, b1, b2 := a[..k], a[k..], b[..k], b[k..];
    forall m | 0 <= m < 4 * k
      ensures res[m] == Coef(a, b, m)
    {
      RecombinedAt(a1, a2, b1, b2, sa, sb, m);
      assert a == a1 + a2 && b == b1 + b2;
    }
  }

  lemma RecombinedAt(a1: seq<int>, a2: seq<int>, b1: seq<int>, b2: seq<int>, sa: seq<int>, sb: seq<int>, m: int)
    requires IsSum(sa, a2, a1) && IsSum(sb, b2, b1) && |sa| == |sb|
    ensures CombineAt(Convolution(sa, sb), Convolution(a1, b1), Convolution(a2, b2), |sa|, m) == Coef(a1 + a2, b1 + b2, m)
  {
    var k := |sa|;
    ThreeProducts(a1, a2, b1, b2, sa, sb, m);
    ConvolutionAt(sa, sb, m - k);
    ConvolutionAt(a1, b1, m - k);
    ConvolutionAt(a2, b2, m - k);
    ConvolutionAt(a1, b1, m);
    ConvolutionAt(a2, b2, m - 2 * k);
  }

  // ----- the product of the values -----

  lemma {:induction false} EvalSum(s: seq<int>, t: seq<int>, u: seq<int>, b: int)
    requires |s| == |t| == |u| && forall i :: 0 <= i < |s| ==> u[i] == s[i] + t[i]
    ensures Eval(u, b) == Eval(s, b) + Eval(t, b)
  {
    if s != [] {
      EvalSum(s[1..], t[1..], u[1..], b);
      assert b * (Eval(s[1..], b) + Eval(t[1..], b)) == b * Eval(s[1..], b) + b * Eval(t[1..], b);
    }
  }

  lemma {:induction false} EvalScale(s: seq<int>, u: seq<int>, c: int, b: int)
    requires |s| == |u| && forall i :: 0 <= i < |s| ==> u[i] == c * s[i]
    ensures Eval(u, b) == c * Eval(s, b)
  {
    if s != [] {
      EvalScale(s[1..], u[1..], c, b);
      ScaleAlgebra(c, s[0], b, Eval(s[1..], b));
    }
  }

  lemma ScaleAlgebra(c: int, x: int, b: int, e: int)
    ensures c * (x + b * e) == c * x + b * (c * e)
  {
    assert c * (b * e) == b * (c * e);
  }

  /** Prepending a coefficient: `(x + a) * b` is `x*b` plus the shifted `a*b`. */
  lemma {:induction false} TermsCons(a: seq<int>, b: seq<int>, m: int, n: nat)
    requires a != []
    ensures Terms(a, b, m, n + 1) == a[0] * At(b, m) + Terms(a[1..], b, m - 1, n)
  {
    if n > 0 {
      TermsCons(a, b, m, n - 1);
      assert At(a, n) == At(a[1..], n - 1);
    } else {
      assert Terms(a, b, m, 1) == Terms(a, b, m, 0) + At(a, 0) * At(b, m);
    }
  }

  /** The convolution of two vectors denotes the product of their values, in every base. */
  lemma {:induction false} ConvolutionIsProduct(a: seq<int>, b: seq<int>, base: int)
    ensures Eval(Convolution(a, b), base) == Eval(a, base) * Eval(b, base)
  {
    var c := Convolution(a, b);
    if a == [] {
      EvalZeros(c, base);
    } else {
      var rest := Convolution(a[1..], b);
      ConvolutionIsProduct(a[1..], b, base);
      var zeros := seq(|a|, _ => 0);
      var row, tail := b + zeros, [0] + rest;
      var scaled := seq(|c|, i requires 0 <= i < |row| => a[0] * row[i]);
      forall m | 0 <= m < |c|
        ensures c[m] == scaled[m] + tail[m]
      {
        TermsCons(a, b, m, |a| - 1);
        assert At(b, m) == row[m];
        if m == 0 {
          TermsOutside(a[1..], b, -1, |a| - 1);
        }
      }
      EvalSum(scaled, tail, c, base);
      EvalScale(row, scaled, a[0], base);
      assert Eval(row, base) == Eval(b, base) by {
        EvalConcat(b, zeros, base);
        EvalZeros(zeros, base);
      }
      assert tail[1..] == rest;
      ProductAlgebra(a[0], Eval(a[1..], base), Eval(b, base), base);
    }
  }

  lemma ProductAlgebra(x: int, e: int, f: int, base: int)
    ensures x * f + base * (e * f) == (x + base * e) * f
  {
    MulAssoc(base, e, f);
  }

  // ----- sizes of the intermediates -----

  predicate Within(a: seq<int>, bound: int) { forall i :: 0 <= i < |a| ==> 0 <= a[i] <= bound }

  lemma {:induction false} TermsBound(a: seq<int>, b: seq<int>, bound: int, m: int, n: nat)
    requires bound >= 0 && Within(a, bound) && Within(b, bound)
    ensures 0 <= Terms(a, b, m, n) <= n * (bound * bound)
  {
    if n > 0 {
      TermsBound(a, b, bound, m, n - 1);
      MulLe(At(a, n - 1), bound, At(b, m - (n - 1)), bound);
      MulLe(0, At(a, n - 1), 0, At(b, m - (n - 1)));
      assert n * (bound * bound) == (n - 1) * (bound * bound) + bound * bound;
    }
  }

  function HalfSums(a: seq<int>): seq<int> {
    var k := |a| / 2;
    seq(k, i requires 0 <= i < k => a[k..][i] + a[..k][i])
  }

  /** Every value the call forms, at this level and below, lies in `[0, limit]`. */
  ghost predicate Fits(a: seq<int>, b: seq<int>, limit: int)
    requires |a| == |b| && Splittable(|a|)
    decreases |a|
  {
    if |a| <= CUTOFF then
      forall m, i :: 0 <= m < 2 * |a| && 0 <= i <= |a| ==> 0 <= Terms(a, b, m, i) <= limit
    else
      var k := |a| / 2;
      && Fits(a[..k], b[..k], limit) && Fits(a[k..], b[k..], limit) && Fits(HalfSums(a), HalfSums(b), limit)
      && LevelFits(a, b, limit)
  }

  /** The same for one level: the half sums, the subtractions, the partial sums of the
      recombination and the result. */
  ghost predicate LevelFits(a: seq<int>, b: seq<int>, limit: int)
    requires |a| == |b|
  {
    var k := |a| / 2;
    && Within(HalfSums(a), limit) && Within(HalfSums(b), limit)
    && (forall m :: 0 <= m < 2 * k ==>
          SubtractionsFit(Coef(HalfSums(a), HalfSums(b), m), Coef(a[..k], b[..k], m), Coef(a[k..], b[k..], m), limit))
    && (forall m :: 0 <= m < 4 * k ==> SumsFit(Cross(a, b, m - k), Coef(a[..k], b[..k], m), limit))
    && (forall m :: 0 <= m < 4 * k ==> 0 <= Coef(a, b, m) <= limit)
  }

  /** What the middle product is reduced to. */
  function Cross(a: seq<int>, b: seq<int>, m: int): int
    requires |a| == |b|
  {
    var k := |a| / 2;
    Coef(HalfSums(a), HalfSums(b), m) - Coef(a[..k], b[..k], m) - Coef(a[k..], b[k..], m)
  }

  /** The cross terms, then the low product added to them; the high one completes the result. */
  predicate SumsFit(cross: int, low: int, limit: int) {
    0 <= cross <= limit && 0 <= cross + low <= limit
  }

  /** The two subtractions that turn the middle product into the cross terms. */
  predicate SubtractionsFit(r: int, low: int, high: int, limit: int) {
    0 <= r <= limit && 0 <= r - low <= limit && 0 <= r - low - high <= limit
  }

  /** A bound on everything reached from length `n` with entries up to `bound`. */
  function Peak(n: nat, bound: int): int
    decreases n
  {
    if n <= CUTOFF then n * (bound * bound) else Peak(n / 2, 2 * bound)
  }

  lemma {:induction false} PeakGrows(n: nat, bound: int)
    requires bound >= 0 && Splittable(n)
    ensures Peak(n, bound) >= n * (bound * bound)
    decreases n
  {
    if n > CUTOFF {
      var k, q := n / 2, bound * bound;
      PeakGrows(k, 2 * bound);
      assert (2 * bound) * (2 * bound) == 4 * q;
      assert k * (4 * q) == 4 * (k * q) && (2 * k) * q == 2 * (k * q);
      MulLe(0, bound, 0, bound);
      MulLe(0, k, 0, q);
    }
  }

  lemma {:induction false} PeakMono(n: nat, bound: int, bound': int)
    requires 0 <= bound <= bound'
    ensures Peak(n, bound) <= Peak(n, bound')
    decreases n
  {
    if n <= CUTOFF {
      MulLe(bound, bound', bound, bound');
      MulLe(0, bound, 0, bound);
      MulLe(n, n, bound * bound, bound' * bound');
    } else {
      PeakMono(n / 2, 2 * bound, 2 * bound');
    }
  }

  lemma SchoolbookFits(a: seq<int>, b: seq<int>, bound: int, limit: int)
    requires |a| == |b| <= CUTOFF && bound >= 0 && Within(a, bound) && Within(b, bound)
    requires Peak(|a|, bound) <= limit
    ensures Fits(a, b, limit)
  {
    forall m, i | 0 <= m < 2 * |a| && 0 <= i <= |a|
      ensures 0 <= Terms(a, b, m, i) <= limit
    {
      TermsBound(a, b, bound, m, i);
      MulLe(0, bound, 0, bound);
      MulLe(i, |a|, bound * bound, bound * bound);
    }
  }

  /** No intermediate of the recursion exceeds the peak. */
  lemma {:induction false} NothingOverflows(a: seq<int>, b: seq<int>, bound: int, limit: int)
    requires |a| == |b| && Splittable(|a|) && bound >= 0 && Within(a, bound) && Within(b, bound)
    requires Peak(|a|, bound) <= limit
    ensures Fits(a, b, limit)
    decreases |a|
  {
    hide Terms, LevelFits;
    var n := |a|;
    if n <= CUTOFF {
      SchoolbookFits(a, b, bound, limit);
    } else {
      var k := n / 2;
      PeakMono(k, bound, 2 * bound);
      NothingOverflows(a[..k], b[..k], bound, limit);
      NothingOverflows(a[k..], b[k..], bound, limit);
      NothingOverflows(HalfSums(a), HalfSums(b), 2 * bound, limit);
      LevelStaysSmall(a, b, bound, limit);
    }
  }

  lemma LevelStaysSmall(a: seq<int>, b: seq<int>, bound: int, limit: int)
    requires |a| == |b| > CUTOFF && Splittable(|a|) && bound >= 0 && Within(a, bound) && Within(b, bound)
    requires Peak(|a|, bound) <= limit
    ensures LevelFits(a, b, limit)
  {
    hide Terms, Peak, Within, HalfSums, Coef, Cross, SubtractionsFit, SumsFit;
    var k := |a| / 2;
    HalfSumsSmall(a, bound, limit);
    HalfSumsSmall(b, bound, limit);
    forall m | 0 <= m < 2 * k
      ensures SubtractionsFit(Coef(HalfSums(a), HalfSums(b), m), Coef(a[..k], b[..k], m), Coef(a[k..], b[k..], m), limit)
    {
      SubtractionsStaySmall(a, b, bound, limit, m);
    }
    forall m | 0 <= m < 4 * k
      ensures 0 <= Coef(a, b, m) <= limit
    {
      CoefStaysSmall(a, b, bound, limit, m);
    }
    forall m | 0 <= m < 4 * k
      ensures SumsFit(Cross(a, b, m - k), Coef(a[..k], b[..k], m), limit)
    {
      SumsStaySmall(a, b, bound, limit, m);
    }
  }

  lemma HalfSumsSmall(a: seq<int>, bound: int, limit: int)
    requires |a| > CUTOFF && Splittable(|a|) && bound >= 0 && Within(a, bound) && Peak(|a|, bound) <= limit
    ensures Within(HalfSums(a), limit)
  {
    hide Peak;
    SumsSmall(|a|, bound, limit);
  }

  lemma CoefStaysSmall(a: seq<int>, b: seq<int>, bound: int, limit: int, m: int)
    requires |a| == |b| && Splittable(|a|) && bound >= 0 && Within(a, bound) && Within(b, bound)
    requires Peak(|a|, bound) <= limit
    ensures 0 <= Coef(a, b, m) <= limit
  {
    hide Terms, Peak;
    TermsBound(a, b, bound, m, |a|);
    PeakGrows(|a|, bound);
  }

  lemma SumsStaySmall(a: seq<int>, b: seq<int>, bound: int, limit: int, m: int)
    requires |a| == |b| > CUTOFF && Splittable(|a|) && bound >= 0 && Within(a, bound) && Within(b, bound)
    requires Peak(|a|, bound) <= limit && Coef(a, b, m) <= limit
    ensures SumsFit(Cross(a, b, m - |a| / 2), Coef(a[..|a| / 2], b[..|a| / 2], m), limit)
  {
    var k := |a| / 2;
    SubtractionsStaySmall(a, b, bound, limit, m - k);
    CrossAndProducts(a, b, m);
    TermsBound(a[..k], b[..k], bound, m, k);
    TermsBound(a[k..], b[k..], bound, m - 2 * k, k);
    hide Terms, HalfSums, Within, Peak, Splittable;
  }

  /** The three summands of a coefficient. */
  lemma CrossAndProducts(a: seq<int>, b: seq<int>, m: int)
    requires |a| == |b| && |a| % 2 == 0
    ensures var k := |a| / 2;
            Coef(a, b, m) == Cross(a, b, m - k) + Coef(a[..k], b[..k], m) + Coef(a[k..], b[k..], m - 2 * k)
  {
    hide Terms;
    var k := |a| / 2;
    var a1, a2, b1, b2 := a[..k], a[k..], b[..k], b[k..];
    assert a == a1 + a2 && b == b1 + b2;
    assert IsSum(HalfSums(a), a2, a1) && IsSum(HalfSums(b), b2, b1);
    ThreeProducts(a1, a2, b1, b2, HalfSums(a), HalfSums(b), m);
  }

  lemma SumsSmall(n: nat, bound: int, limit: int)
    requires n > CUTOFF && Splittable(n) && bound >= 0 && Peak(n, bound) <= limit
    ensures 2 * bound <= limit
  {
    PeakGrows(n, bound);
    if bound >= 1 {
      MulLe(1, bound, bound, bound);
      MulLe(2, n, bound, bound * bound);
    }
  }

  lemma SubtractionsStaySmall(a: seq<int>, b: seq<int>, bound: int, limit: int, m: int)
    requires |a| == |b| > CUTOFF && Splittable(|a|) && bound >= 0 && Within(a, bound) && Within(b, bound)
    requires Peak(|a|, bound) <= limit
    ensures var k := |a| / 2;
            SubtractionsFit(Coef(HalfSums(a), HalfSums(b), m), Coef(a[..k], b[..k], m), Coef(a[k..], b[k..], m), limit)
  {
    var k := |a| / 2;
    var a1, a2, b1, b2 := a[..k], a[k..], b[..k], b[k..];
    FourProducts(a1, a2, b1, b2, HalfSums(a), HalfSums(b), m);
    TermsBound(a1, b1, bound, m, k);
    TermsBound(a1, b2, bound, m, k);
    TermsBound(a2, b1, bound, m, k);
    TermsBound(a2, b2, bound, m, k);
    TermsBound(HalfSums(a), HalfSums(b), 2 * bound, m, k);
    PeakGrows(k, 2 * bound);
  }

  // ----- the bound is reached -----

  /** Whether nothing overflows for any operands of length `n` with entries up to `bound`. */
  ghost predicate AllFit(n: nat, bound: int, limit: int)
    requires Splittable(n)
  {
    forall a, b :: |a| == n && |b| == n && Within(a, bound) && Within(b, bound) ==> Fits(a, b, limit)
  }

  function Constant(n: nat, v: int): seq<int> { seq(n, _ => v) }

  lemma {:induction false} ConstantTerms(n: nat, v: int, j: nat)
    requires j <= n
    ensures Terms(Constant(n, v), Constant(n, v), n - 1, j) == j * (v * v)
  {
    if j > 0 {
      ConstantTerms(n, v, j - 1);
      assert j * (v * v) == (j - 1) * (v * v) + v * v;
    }
  }

  /** Equal entries reach the peak: the half sums double at every level. */
  lemma {:induction false} ConstantPeaks(n: nat, v: int, limit: int)
    requires n >= 1 && Splittable(n) && Fits(Constant(n, v), Constant(n, v), limit)
    ensures Peak(n, v) <= limit
    decreases n
  {
    var a := Constant(n, v);
    if n <= CUTOFF {
      ConstantTerms(n, v, n);
      assert 0 <= Terms(a, a, n - 1, n) <= limit;
    } else {
      assert HalfSums(a) == Constant(n / 2, 2 * v);
      ConstantPeaks(n / 2, 2 * v, limit);
    }
  }

  /** Nothing overflows, whatever the operands, exactly if the peak does not. */
  lemma AllFitIff(n: nat, bound: int, limit: int)
    requires n >= 1 && Splittable(n) && bound >= 0
    ensures AllFit(n, bound, limit) <==> Peak(n, bound) <= limit
  {
    if Peak(n, bound) <= limit {
      forall a, b | |a| == n && |b| == n && Within(a, bound) && Within(b, bound)
        ensures Fits(a, b, limit)
      {
        NothingOverflows(a, b, bound, limit);
      }
    }
    if AllFit(n, bound, limit) {
      assert Within(Constant(n, bound), bound);
      ConstantPeaks(n, bound, limit);
    }
  }
}
