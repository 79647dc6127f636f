/** The product in six-digit limbs: padding to a power of two, Karatsuba, carrying, and the
    operands for which the carries fit an `int` and the sums 64 bits. */
module SixDigits {
  import opened Wrappers
  import opened Digits
  import opened BigIntCore
  import opened BigIntSmall
  import Karatsuba

  const SIX: int := 1_000_000

  // ----- padding to a power of two -----

  /** Bitwise and. */
  function BitAnd(m: nat, n: nat): nat {
    if m == 0 || n == 0 then 0 else 2 * BitAnd(m / 2, n / 2) + (m % 2) * (n % 2)
  }

  predicate PowerOfTwo(n: nat) {
    n == 1 || (n > 0 && n % 2 == 0 && PowerOfTwo(n / 2))
  }

  lemma BitSquare(b: int)
    requires b == 0 || b == 1
    ensures b * b == b
  {
  }

  lemma {:induction false} BitAndSelf(n: nat)
    ensures BitAnd(n, n) == n
  {
    if n > 0 {
      BitAndSelf(n / 2);
      BitSquare(n % 2);
    }
  }

  /** The padding loop's test `n & (n - 1)` is zero exactly at powers of two. */
  lemma {:induction false} PaddingTest(n: nat)
    requires n > 0
    ensures BitAnd(n, n - 1) == 0 <==> PowerOfTwo(n)
  {
    if n == 1 {
    } else if n % 2 == 0 {
      PaddingTest(n / 2);
      assert (n - 1) / 2 == n / 2 - 1 && (n % 2) * ((n - 1) % 2) == 0;
    } else {
      assert (n - 1) / 2 == n / 2 && (n % 2) * ((n - 1) % 2) == 0;
      BitAndSelf(n / 2);
    }
  }

  /** The least power of two that is not below `n`. */
  function CeilPower(n: nat): nat
    requires n > 0
  {
    if n == 1 then 1 else 2 * CeilPower((n + 1) / 2)
  }

  lemma {:induction false} CeilPowerIsLeast(n: nat)
    requires n > 0
    ensures PowerOfTwo(CeilPower(n)) && n <= CeilPower(n)
    ensures forall p: nat :: PowerOfTwo(p) && n <= p ==> CeilPower(n) <= p
  {
    if n > 1 {
      CeilPowerIsLeast((n + 1) / 2);
      assert CeilPower(n) / 2 == CeilPower((n + 1) / 2);
      forall p: nat | PowerOfTwo(p) && n <= p
        ensures CeilPower(n) <= p
      {
        assert PowerOfTwo(p / 2) && (n + 1) / 2 <= p / 2;
      }
    }
  }

  lemma {:induction false} PowerIsSplittable(n: nat)
    requires PowerOfTwo(n)
    ensures Karatsuba.Splittable(n)
  {
    if n > Karatsuba.CUTOFF {
      PowerIsSplittable(n / 2);
    }
  }

  /** The common length the operands are padded to. */
  function PaddedLength(m: nat, n: nat): nat {
    if m == 0 && n == 0 then 0 else CeilPower(Max(m, n))
  }

  /** `s` with zero limbs up to length `n`. */
  function PadTo(s: seq<int>, n: nat): seq<int>
    requires |s| <= n
  {
    s + seq(n - |s|, _ => 0)
  }

  lemma PaddedLengthCovers(m: nat, n: nat)
    ensures m <= PaddedLength(m, n) && n <= PaddedLength(m, n) && Karatsuba.Splittable(PaddedLength(m, n))
  {
    if m > 0 || n > 0 {
      CeilPowerIsLeast(Max(m, n));
      PowerIsSplittable(PaddedLength(m, n));
    }
  }

  method PadOne(s: seq<int>, n: nat) returns (r: seq<int>)
    ensures r == if |s| <= n then PadTo(s, n) else s
  {
    r := s;
    while |r| < n
      invariant |s| <= |r| && (|r| <= n || r == s) && r == PadTo(s, |r|)
      decreases n - |r|
    {
      r := r + [0];
    }
  }

  /** The last padding loop, on operands of equal length. */
  method PadToPower(a0: seq<int>, b0: seq<int>) returns (a: seq<int>, b: seq<int>)
    requires |a0| == |b0| > 0
    ensures |a0| <= |a| == CeilPower(|a0|) && a == PadTo(a0, |a|) && b == PadTo(b0, |a|)
  {
    a, b := a0, b0;
    CeilPowerIsLeast(|a0|);
    PaddingTest(|a0|);
    assert PadTo(a0, |a|) == a0 && PadTo(b0, |a|) == b0;
    while BitAnd(|a|, |a| - 1) != 0
      invariant |a0| <= |a| == |b| <= CeilPower(|a0|)
      invariant BitAnd(|a|, |a| - 1) == 0 <==> PowerOfTwo(|a|)
      invariant a == PadTo(a0, |a|) && b == PadTo(b0, |a|)
      decreases CeilPower(|a0|) - |a|
    {
      assert |a| < CeilPower(|a0|);
      assert a + [0] == PadTo(a0, |a| + 1) && b + [0] == PadTo(b0, |a| + 1);
      a, b := a + [0], b + [0];
      PaddingTest(|a|);
    }
  }

  /** The three padding loops of `operator*`. */
  method Pad(a0: seq<int>, b0: seq<int>) returns (a: seq<int>, b: seq<int>)
    ensures var n := PaddedLength(|a0|, |b0|);
            |a0| <= n && |b0| <= n && a == PadTo(a0, n) && b == PadTo(b0, n)
  {
    PaddedLengthCovers(|a0|, |b0|);
    var a1 := PadOne(a0, |b0|);
    var b1 := PadOne(b0, |a1|);
    if |a1| == 0 {
      a, b := a1, b1;
    } else {
      a, b := PadToPower(a1, b1);
    }
  }

  lemma PaddingKeepsValue(s: seq<int>, n: nat, b: int)
    requires b >= 1 && IsDigits(s, b) && |s| <= n
    ensures IsDigits(PadTo(s, n), b) && Eval(PadTo(s, n), b) == Eval(s, b)
  {
    var zeros := seq(n - |s|, _ => 0);
    EvalConcat(s, zeros, b);
    EvalZeros(zeros, b);
  }

  // ----- carrying -----

  /** The carry into position `i`, if nothing is cut off. */
  function CarryInto(c: seq<int>, i: nat): int
    requires i <= |c|
  {
    if i == 0 then 0 else (c[i - 1] + CarryInto(c, i - 1)) / SIX
  }

  lemma CarryAlgebra(w: int, e: int, done: int, carry: int, c: int, low: int, high: int)
    requires done + w * carry == e && c + carry == low + SIX * high
    ensures (done + w * low) + (SIX * w) * high == e + w * c
  {
    assert (SIX * w) * high == w * (SIX * high);
    assert w * low + w * (SIX * high) == w * (c + carry);
    assert w * (c + carry) == w * c + w * carry;
  }

  /** The cast to `int`. */
  function ToInt(v: int): int { (v + 0x8000_0000) % 0x1_0000_0000 - 0x8000_0000 }

  lemma CastKeeps(v: int)
    requires 0 <= v <= INT_MAX
    ensures ToInt(v) == v
  {
  }

  /** The carry into position `i` as the loop has it, after its cast. */
  function IntCarry(c: seq<int>, i: nat): int
    requires i <= |c|
  {
    if i == 0 then 0 else ToInt(TruncDiv(c[i - 1] + IntCarry(c, i - 1), SIX))
  }

  /** The limbs the loop leaves. */
  function Limbs(c: seq<int>): seq<int> {
    seq(|c|, i requires 0 <= i < |c| => TruncMod(c[i] + IntCarry(c, i), SIX))
  }

  lemma LimbAt(c: seq<int>, i: nat)
    requires i < |c|
    ensures |Limbs(c)| == |c| && Limbs(c)[i] == TruncMod(c[i] + IntCarry(c, i), SIX)
    ensures Limbs(c)[..i + 1] == Limbs(c)[..i] + [Limbs(c)[i]]
    ensures IntCarry(c, i + 1) == ToInt(TruncDiv(c[i] + IntCarry(c, i), SIX))
  {
    hide TruncMod, TruncDiv, ToInt;
  }

  /** The carry loop of `operator*`. */
  method Carry(c: seq<int>) returns (r: seq<int>)
    ensures r == Limbs(c)
  {
    hide TruncMod, TruncDiv, ToInt, IntCarry;
    r := [];
    var carry := 0;
    NoCarry(c);
    for i := 0 to |c|
      invariant r == Limbs(c)[..i] && carry == IntCarry(c, i)
    {
      LimbAt(c, i);
      var cur := c[i] + carry;
      r := r + [TruncMod(cur, SIX)];
      carry := ToInt(TruncDiv(cur, SIX));
    }
  }

  lemma NoCarry(c: seq<int>)
    ensures IntCarry(c, 0) == 0
  {
  }

  /** Every carry of the loop fits an `int`. */
  ghost predicate CarriesFit(c: seq<int>) { forall i :: 0 <= i <= |c| ==> 0 <= CarryInto(c, i) <= INT_MAX }

  /** The carries up to position `p` fit. */
  ghost predicate FitUpTo(c: seq<int>, p: nat)
    requires p <= |c|
  {
    forall i :: 0 <= i <= p ==> 0 <= CarryInto(c, i) <= INT_MAX
  }

  /** As long as no carry is cut off, the limbs are those of the value so far. */
  lemma {:induction false} ExactUpTo(c: seq<int>, p: nat)
    requires p <= |c| && FitUpTo(c, p) && forall i :: 0 <= i < |c| ==> c[i] >= 0
    ensures IntCarry(c, p) == CarryInto(c, p) && IsDigits(Limbs(c)[..p], SIX)
    ensures Eval(Limbs(c)[..p], SIX) + Pow(SIX, p) * CarryInto(c, p) == Eval(c[..p], SIX)
  {
    hide Limbs, IntCarry, CarryInto, IsDigits, ToInt, Eval, Pow;
    if p > 0 {
      ExactUpTo(c, p - 1);
      ExactStep(c, p - 1);
      CastKeeps(CarryInto(c, p));
    } else {
      ExactAtStart(c);
    }
  }

  lemma ExactAtStart(c: seq<int>)
    ensures IntCarry(c, 0) == CarryInto(c, 0) && IsDigits(Limbs(c)[..0], SIX)
    ensures Eval(Limbs(c)[..0], SIX) + Pow(SIX, 0) * CarryInto(c, 0) == Eval(c[..0], SIX)
  {
  }

  /** One more limb, if the carry into it is right; the carry out of it may not be. */
  lemma ExactStep(c: seq<int>, p: nat)
    requires p < |c| && IntCarry(c, p) == CarryInto(c, p) >= 0 && c[p] >= 0 && IsDigits(Limbs(c)[..p], SIX)
    requires Eval(Limbs(c)[..p], SIX) + Pow(SIX, p) * CarryInto(c, p) == Eval(c[..p], SIX)
    ensures IsDigits(Limbs(c)[..p + 1], SIX)
    ensures Eval(Limbs(c)[..p + 1], SIX) + Pow(SIX, p + 1) * CarryInto(c, p + 1) == Eval(c[..p + 1], SIX)
    ensures IntCarry(c, p + 1) == ToInt(CarryInto(c, p + 1))
  {
    var r, cur := Limbs(c)[..p], c[p] + CarryInto(c, p);
    LimbAt(c, p);
    TruncParts(cur, SIX);
    assert CarryInto(c, p + 1) == cur / SIX;
    hide Limbs, IntCarry, CarryInto, TruncMod, TruncDiv, ToInt, Eval, Pow;
    EvalPrefixStep(c, p, SIX);
    EvalPush(r, cur % SIX, SIX);
    CarryAlgebra(Pow(SIX, p), Eval(c[..p], SIX), Eval(r, SIX), CarryInto(c, p), c[p], cur % SIX, cur / SIX);
  }

  /** If all carries fit, the limbs are proper and keep the value; none is left over when the
      value fits their number. */
  lemma FittingIsExact(c: seq<int>)
    requires 0 <= Eval(c, SIX) < Pow(SIX, |c|) && CarriesFit(c) && forall i :: 0 <= i < |c| ==> c[i] >= 0
    ensures IsDigits(Limbs(c), SIX) && Eval(Limbs(c), SIX) == Eval(c, SIX)
  {
    ExactUpTo(c, |c|);
    assert Limbs(c)[..|c|] == Limbs(c) && c[..|c|] == c;
    NothingDropped(Limbs(c), CarryInto(c, |c|));
  }

  /** How many times the cast takes 2^32 off. */
  lemma CastLoses(v: int)
    requires v > INT_MAX
    ensures var k := (v + 0x8000_0000) / 0x1_0000_0000; k >= 1 && ToInt(v) == v - 0x1_0000_0000 * k
  {
  }

  /** The first carry that is cut off makes the value wrong at its position, as long as it is not
      off by a multiple of the limb size. */
  lemma LossShows(c: seq<int>, p: nat)
    requires p + 1 < |c| && FitUpTo(c, p) && INT_MAX < CarryInto(c, p + 1) < 4 * 0x1_0000_0000
    requires forall i :: 0 <= i < |c| ==> c[i] >= 0
    ensures Eval(Limbs(c), SIX) != Eval(c, SIX)
  {
    hide Limbs, Eval, ToInt, Pow, TruncMod, TruncDiv, CarryInto, IntCarry;
    ExactUpTo(c, p);
    ExactStep(c, p);
    var q, v := p + 1, CarryInto(c, p + 1);
    LimbAt(c, q);
    LossAlgebra(Limbs(c)[q], c[q], v, Eval(Limbs(c)[q + 1..], SIX), Eval(c[q + 1..], SIX));
    if Eval(Limbs(c), SIX) == Eval(c, SIX) {
      SameRest(Limbs(c), c, q, v);
    }
  }

  lemma LossAlgebra(limb: int, c: int, v: int, rest: int, rest': int)
    requires INT_MAX < v < 4 * 0x1_0000_0000 && limb == TruncMod(c + ToInt(v), SIX)
    ensures limb + SIX * rest != v + c + SIX * rest'
  {
    CastLoses(v);
    var k := (v + 0x8000_0000) / 0x1_0000_0000;
    TruncParts(c + ToInt(v), SIX);
    NoMultiple(k, rest - rest' - TruncDiv(c + ToInt(v), SIX));
    hide ToInt, TruncMod, TruncDiv;
  }

  lemma TruncParts(n: int, d: int)
    requires d > 0
    ensures n == d * TruncDiv(n, d) + TruncMod(n, d) && -d < TruncMod(n, d) < d
    ensures n >= 0 ==> TruncDiv(n, d) == n / d && TruncMod(n, d) == n % d
  {
    if n < 0 {
      var m := -n;
      var q, r := m / d, m % d;
      assert TruncDiv(n, d) == -q && TruncMod(n, d) == -r;
      assert m == d * q + r;
      hide TruncDiv, TruncMod;
      assert d * -q == -(d * q);
    }
  }

  /** Equal values whose parts below a position differ by a carry. */
  lemma SameRest(s: seq<int>, t: seq<int>, q: nat, v: int)
    requires q < |s| == |t| && Eval(s, SIX) == Eval(t, SIX) && Eval(s[..q], SIX) + Pow(SIX, q) * v == Eval(t[..q], SIX)
    ensures s[q] + SIX * Eval(s[q + 1..], SIX) == v + t[q] + SIX * Eval(t[q + 1..], SIX)
  {
    assert s[q..][1..] == s[q + 1..] && t[q..][1..] == t[q + 1..];
    assert Eval(s[q..], SIX) == s[q] + SIX * Eval(s[q + 1..], SIX) && Eval(t[q..], SIX) == t[q] + SIX * Eval(t[q + 1..], SIX);
    hide Eval, Pow;
    EvalSplit(s, q, SIX);
    EvalSplit(t, q, SIX);
    PowPositive(SIX, q);
    RestAlgebra(Pow(SIX, q), Eval(s[..q], SIX), Eval(t[..q], SIX), v, Eval(s[q..], SIX), Eval(t[q..], SIX));
  }

  lemma RestAlgebra(w: int, low: int, low': int, v: int, x: int, y: int)
    requires w > 0 && low + w * v == low' && low + w * x == low' + w * y
    ensures x == v + y
  {
    assert w * (x - v - y) == w * x - w * v - w * y;
    ZeroFactor(w, x - v - y);
  }

  lemma ZeroFactor(w: int, d: int)
    requires w > 0 && w * d == 0
    ensures d == 0
  {
  }

  lemma NoMultiple(k: int, n: int)
    requires 1 <= k <= 4
    ensures 0x1_0000_0000 * k + SIX * n != 0
  {
    assert (0x1_0000_0000 * k) % SIX != 0 by {
      assert k == 1 || k == 2 || k == 3 || k == 4;
    }
    assert SIX * n == -(SIX * -n) && (SIX * -n) % SIX == 0;
  }

  lemma NothingDropped(r: seq<int>, carry: int)
    requires IsDigits(r, SIX) && carry >= 0
    requires Eval(r, SIX) + Pow(SIX, |r|) * carry < Pow(SIX, |r|)
    ensures carry == 0
  {
    EvalBound(r, SIX);
    if carry >= 1 {
      MulLe(Pow(SIX, |r|), Pow(SIX, |r|), 1, carry);
    }
  }

  lemma ProductFitsLength(a: seq<int>, b: seq<int>)
    requires |a| == |b| && IsDigits(a, SIX) && IsDigits(b, SIX)
    ensures var c := Karatsuba.Convolution(a, b);
            0 <= Eval(c, SIX) < Pow(SIX, |c|) && forall i :: 0 <= i < |c| ==> c[i] >= 0
  {
    var c := Karatsuba.Convolution(a, b);
    Karatsuba.ConvolutionIsProduct(a, b, SIX);
    EvalBound(a, SIX);
    EvalBound(b, SIX);
    PowAdd(SIX, |a|, |b|);
    StrictProduct(Eval(a, SIX), Pow(SIX, |a|), Eval(b, SIX), Pow(SIX, |b|));
    forall i | 0 <= i < |c|
      ensures c[i] >= 0
    {
      Karatsuba.TermsBound(a, b, SIX, i, |a|);
    }
  }

  lemma StrictProduct(x: int, x': int, y: int, y': int)
    requires 0 <= x < x' && 0 <= y < y'
    ensures 0 <= x * y < x' * y'
  {
    MulLe(0, x, 0, y);
    MulLe(x, x' - 1, y, y');
    assert (x' - 1) * y' == x' * y' - y';
  }

  // ----- machine widths -----

  /** The lengths for which no Karatsuba intermediate leaves 64 bits, and the length up to
      which the shorter operand keeps every carry within an `int`. */
  const SPAN: nat := 16384
  const SHORT: nat := 2147

  const SQUARE: int := (SIX - 1) * (SIX - 1)

  /** The coefficients the carry loop works on. */
  function Coefficients(a6: seq<int>, b6: seq<int>): seq<int> {
    PaddedLengthCovers(|a6|, |b6|);
    var n := PaddedLength(|a6|, |b6|);
    Karatsuba.Convolution(PadTo(a6, n), PadTo(b6, n))
  }

  lemma SpanIsPower()
    ensures PowerOfTwo(SPAN)
  {
    assert PowerOfTwo(4);
    assert PowerOfTwo(32);
    assert PowerOfTwo(256);
    assert PowerOfTwo(2048);
  }

  lemma PaddedWithinSpan(m: nat, n: nat)
    requires m <= SPAN && n <= SPAN
    ensures PaddedLength(m, n) <= SPAN
  {
    SpanIsPower();
    if m > 0 || n > 0 {
      CeilPowerIsLeast(Max(m, n));
    }
  }

  /** After `k` halvings to the cutoff the entries have doubled `k` times. */
  lemma {:induction false} PeakBound(n: nat, bound: int, k: nat)
    requires bound >= 0 && n <= 32 * Pow(2, k)
    ensures Karatsuba.Peak(n, bound) <= 32 * ((Pow(2, k) * bound) * (Pow(2, k) * bound))
    decreases k
  {
    var p := Pow(2, k);
    PowPositive(2, k);
    if n <= Karatsuba.CUTOFF {
      MulLe(1, p, bound, bound);
      MulLe(bound, p * bound, bound, p * bound);
      MulLe(0, bound, 0, bound);
      MulLe(n, 32, bound * bound, (p * bound) * (p * bound));
    } else {
      assert k > 0;
      PeakBound(n / 2, 2 * bound, k - 1);
      assert Pow(2, k - 1) * (2 * bound) == p * bound;
    }
  }

  /** Within the span every value the multiplication forms fits a `long long`. */
  lemma KaratsubaFits(a6: seq<int>, b6: seq<int>)
    requires IsDigits(a6, SIX) && IsDigits(b6, SIX) && |a6| <= SPAN && |b6| <= SPAN
    ensures var n := PaddedLength(|a6|, |b6|);
            && |a6| <= n && |b6| <= n && Karatsuba.Splittable(n)
            && Karatsuba.Fits(PadTo(a6, n), PadTo(b6, n), LLONG_MAX)
  {
    var n := PaddedLength(|a6|, |b6|);
    PaddedLengthCovers(|a6|, |b6|);
    PaddedWithinSpan(|a6|, |b6|);
    PaddingKeepsValue(a6, n, SIX);
    PaddingKeepsValue(b6, n, SIX);
    assert Pow(2, 9) == 512;
    PeakBound(n, SIX, 9);
    Karatsuba.NothingOverflows(PadTo(a6, n), PadTo(b6, n), SIX, LLONG_MAX);
  }

  lemma {:induction false} PowerGap(l: nat, p: nat)
    requires PowerOfTwo(l) && PowerOfTwo(p) && l > p
    ensures l >= 2 * p
  {
    if p > 1 {
      PowerGap(l / 2, p / 2);
    }
  }

  lemma {:induction false} PeakExact(n: nat, k: nat, v: int)
    requires n == 32 * Pow(2, k)
    ensures Karatsuba.Peak(n, v) == 32 * ((Pow(2, k) * v) * (Pow(2, k) * v))
    decreases k
  {
    PowPositive(2, k);
    if k > 0 {
      PowPositive(2, k - 1);
      PeakExact(n / 2, k - 1, 2 * v);
      assert Pow(2, k - 1) * (2 * v) == Pow(2, k) * v;
    }
  }

  lemma {:induction false} LargePeak(l: nat, v: int)
    requires PowerOfTwo(l) && l >= 2 * SPAN && v >= SIX - 1
    ensures Karatsuba.Peak(l, v) > LLONG_MAX
    decreases l
  {
    if l > 2 * SPAN {
      SpanIsPower();
      PowerGap(l, 2 * SPAN);
      LargePeak(l / 2, 2 * v);
    } else {
      assert Pow(2, 10) == 1024;
      PeakExact(l, 10, SIX - 1);
      Karatsuba.PeakMono(l, SIX - 1, v);
    }
  }

  /** At a padded length, no operands make a sum leave 64 bits exactly if it is within the span. */
  lemma SpanIff(l: nat)
    requires PowerOfTwo(l)
    ensures Karatsuba.Splittable(l) && (Karatsuba.AllFit(l, SIX - 1, LLONG_MAX) <==> l <= SPAN)
  {
    PowerIsSplittable(l);
    Karatsuba.AllFitIff(l, SIX - 1, LLONG_MAX);
    if l <= SPAN {
      assert Pow(2, 9) == 512;
      PeakBound(l, SIX - 1, 9);
    } else {
      SpanIsPower();
      PowerGap(l, SPAN);
      LargePeak(l, SIX - 1);
    }
  }

  // ----- how large a carry gets -----

  /** How many of the first `n` terms of coefficient `m` can meet the first `q` entries of the
      second operand. */
  function Overlap(m: int, q: nat, n: nat): int {
    if n <= m + 1 - q then 0 else if n <= m + 1 then n - (m + 1 - q) else q
  }

  /** Only as many terms count as either operand has limbs. */
  lemma {:induction false} TermsOfShorter(a: seq<int>, p: nat, b: seq<int>, q: nat, m: int, n: nat)
    requires IsDigits(a, SIX) && IsDigits(b, SIX)
    requires forall i :: p <= i < |a| ==> a[i] == 0
    requires forall i :: q <= i < |b| ==> b[i] == 0
    ensures 0 <= Karatsuba.Terms(a, b, m, n) <= (if n <= p then n else p) * SQUARE
    ensures Karatsuba.Terms(a, b, m, n) <= Overlap(m, q, n) * SQUARE
  {
    if n > 0 {
      TermsOfShorter(a, p, b, q, m, n - 1);
      var x, y := Karatsuba.At(a, n - 1), Karatsuba.At(b, m - (n - 1));
      assert 0 <= x < SIX && 0 <= y < SIX && (n > p ==> x == 0) && (!(0 <= m - (n - 1) < q) ==> y == 0);
      assert Karatsuba.Terms(a, b, m, n) == Karatsuba.Terms(a, b, m, n - 1) + x * y;
      hide IsDigits, Karatsuba.At, Karatsuba.Terms;
      TermBound(x, y);
    }
  }

  lemma TermBound(x: int, y: int)
    requires 0 <= x < SIX && 0 <= y < SIX
    ensures 0 <= x * y <= SQUARE && (x == 0 || y == 0 ==> x * y == 0)
  {
    MulLe(x, SIX - 1, y, SIX - 1);
    MulLe(0, x, 0, y);
  }

  lemma CoefficientIs(a6: seq<int>, b6: seq<int>, n: nat, i: nat)
    requires IsDigits(a6, SIX) && IsDigits(b6, SIX) && i < |Coefficients(a6, b6)| && n == PaddedLength(|a6|, |b6|)
    ensures |a6| <= n && |b6| <= n && Coefficients(a6, b6)[i] == Karatsuba.Terms(PadTo(a6, n), PadTo(b6, n), i, n)
  {
    hide Eval, CeilPower, Karatsuba.Terms;
    PaddedLengthCovers(|a6|, |b6|);
  }

  lemma PaddedZeros(s: seq<int>, n: nat)
    requires IsDigits(s, SIX) && |s| <= n
    ensures IsDigits(PadTo(s, n), SIX) && forall i :: |s| <= i < |PadTo(s, n)| ==> PadTo(s, n)[i] == 0
  {
  }

  lemma CoefficientBound(a6: seq<int>, b6: seq<int>, i: nat)
    requires IsDigits(a6, SIX) && IsDigits(b6, SIX) && i < |Coefficients(a6, b6)|
    ensures 0 <= Coefficients(a6, b6)[i] <= |a6| * SQUARE && Coefficients(a6, b6)[i] <= |b6| * SQUARE
  {
    hide Coefficients, PadTo, Karatsuba.Terms, PaddedLength, Overlap;
    var n := PaddedLength(|a6|, |b6|);
    CoefficientIs(a6, b6, n, i);
    PaddedZeros(a6, n);
    PaddedZeros(b6, n);
    TermsOfShorter(PadTo(a6, n), |a6|, PadTo(b6, n), |b6|, i, n);
    OverlapBound(i, |b6|, n);
    MulLe(if n <= |a6| then n else |a6|, |a6|, SQUARE, SQUARE);
    MulLe(Overlap(i, |b6|, n), |b6|, SQUARE, SQUARE);
  }

  lemma OverlapBound(m: int, q: nat, n: nat)
    ensures 0 <= Overlap(m, q, n) <= q
  {
  }

  /** Coefficients of `k` terms give carries of at most `k` times the greatest limb. */
  lemma {:induction false} CarryBound(c: seq<int>, k: nat, i: nat)
    requires i <= |c| && forall j :: 0 <= j < |c| ==> 0 <= c[j] <= k * SQUARE
    ensures 0 <= CarryInto(c, i) <= k * (SIX - 1)
  {
    if i > 0 {
      CarryBound(c, k, i - 1);
    }
  }

  /** The first `k` limbs are as great as they can be. */
  ghost predicate AllNines(s: seq<int>, k: nat) { k <= |s| && forall i :: 0 <= i < k ==> s[i] == SIX - 1 }

  lemma {:induction false} NinesTerms(a: seq<int>, b: seq<int>, m: nat, n: nat)
    requires AllNines(a, m + 1) && AllNines(b, m + 1) && n <= m + 1
    ensures Karatsuba.Terms(a, b, m, n) == n * SQUARE
  {
    if n > 0 {
      NinesTerms(a, b, m, n - 1);
    }
  }

  lemma {:induction false} NoMoreTerms(a: seq<int>, b: seq<int>, m: nat, n: nat)
    requires n >= m + 1
    ensures Karatsuba.Terms(a, b, m, n) == Karatsuba.Terms(a, b, m, m + 1)
  {
    if n > m + 1 {
      NoMoreTerms(a, b, m, n - 1);
    }
  }

  lemma CoefficientCount(a6: seq<int>, b6: seq<int>)
    ensures |Coefficients(a6, b6)| == 2 * PaddedLength(|a6|, |b6|) >= |a6| + |b6|
  {
    PaddedLengthCovers(|a6|, |b6|);
  }

  /** Coefficient `i` where both operands begin with so many nines. */
  lemma NinesCoefficient(a6: seq<int>, b6: seq<int>, i: nat)
    requires IsDigits(a6, SIX) && IsDigits(b6, SIX) && AllNines(a6, i + 1) && AllNines(b6, i + 1)
    ensures i < |Coefficients(a6, b6)| && Coefficients(a6, b6)[i] == (i + 1) * SQUARE
  {
    hide Coefficients;
    var n := PaddedLength(|a6|, |b6|);
    CoefficientCount(a6, b6);
    CoefficientIs(a6, b6, n, i);
    NinesTerms(PadTo(a6, n), PadTo(b6, n), i, i + 1);
    NoMoreTerms(PadTo(a6, n), PadTo(b6, n), i, n);
  }

  /** The carry grows by one greatest limb at each position. */
  lemma {:induction false} NinesCarry(a6: seq<int>, b6: seq<int>, i: nat)
    requires IsDigits(a6, SIX) && IsDigits(b6, SIX) && 1 <= i && AllNines(a6, i) && AllNines(b6, i)
    ensures i <= |Coefficients(a6, b6)| && CarryInto(Coefficients(a6, b6), i) == i * (SIX - 1) - 1
  {
    hide Coefficients;
    NinesCoefficient(a6, b6, i - 1);
    if i > 1 {
      NinesCarry(a6, b6, i - 1);
    }
  }

  // ----- when the product is exact -----

  /** What the coefficients amount to. */
  lemma ProductValue(a6: seq<int>, b6: seq<int>)
    requires IsDigits(a6, SIX) && IsDigits(b6, SIX)
    ensures var c := Coefficients(a6, b6);
            && 0 <= Eval(c, SIX) == Eval(a6, SIX) * Eval(b6, SIX) < Pow(SIX, |c|)
            && forall i :: 0 <= i < |c| ==> c[i] >= 0
  {
    PaddedLengthCovers(|a6|, |b6|);
    var n := PaddedLength(|a6|, |b6|);
    hide PaddedLength, Karatsuba.Convolution;
    PaddingKeepsValue(a6, n, SIX);
    PaddingKeepsValue(b6, n, SIX);
    ProductFitsLength(PadTo(a6, n), PadTo(b6, n));
    Karatsuba.ConvolutionIsProduct(PadTo(a6, n), PadTo(b6, n), SIX);
  }

  /** The first position where a carry does not fit. */
  lemma {:induction false} FirstLoss(c: seq<int>, n: nat) returns (p: nat)
    requires n <= |c| && !FitUpTo(c, n) && forall i :: 0 <= i <= n ==> CarryInto(c, i) >= 0
    ensures p < n && FitUpTo(c, p) && CarryInto(c, p + 1) > INT_MAX
  {
    NoCarryYet(c);
    assert n > 0;
    if FitUpTo(c, n - 1) {
      p := n - 1;
    } else {
      p := FirstLoss(c, n - 1);
    }
  }

  /** No carry is lost behind the last limb: there is none. */
  lemma LossInside(c: seq<int>, p: nat)
    requires 0 <= Eval(c, SIX) < Pow(SIX, |c|) && (forall i :: 0 <= i < |c| ==> c[i] >= 0)
    requires p < |c| && FitUpTo(c, p) && CarryInto(c, p + 1) > INT_MAX
    ensures p + 1 < |c|
  {
    if p + 1 == |c| {
      hide CarryInto, IntCarry, Limbs, Eval, Pow;
      ExactUpTo(c, p);
      ExactStep(c, p);
      assert c[..p + 1] == c;
      LimbAt(c, p);
      NothingDropped(Limbs(c)[..p + 1], CarryInto(c, p + 1));
    }
  }

  /** Within the 64-bit span the loop's limbs are the product exactly if no carry is cut off. */
  lemma ExactIffFits(a6: seq<int>, b6: seq<int>)
    requires IsDigits(a6, SIX) && IsDigits(b6, SIX) && |a6| <= SPAN
    ensures var c := Coefficients(a6, b6);
            && (Eval(Limbs(c), SIX) == Eval(a6, SIX) * Eval(b6, SIX) <==> CarriesFit(c))
            && (CarriesFit(c) ==> IsDigits(Limbs(c), SIX))
  {
    hide Coefficients, CarryInto, Limbs, Eval, Pow;
    var c := Coefficients(a6, b6);
    ProductValue(a6, b6);
    forall i | 0 <= i <= |c|
      ensures 0 <= CarryInto(c, i) <= SPAN * (SIX - 1)
    {
      CarryLimit(a6, b6, SPAN, i);
    }
    if CarriesFit(c) {
      FittingIsExact(c);
    } else {
      var p := FirstLoss(c, |c|);
      LossInside(c, p);
      LossShows(c, p);
    }
  }

  lemma CarryLimit(a6: seq<int>, b6: seq<int>, k: nat, i: nat)
    requires IsDigits(a6, SIX) && IsDigits(b6, SIX) && (|a6| <= k || |b6| <= k) && i <= |Coefficients(a6, b6)|
    ensures 0 <= CarryInto(Coefficients(a6, b6), i) <= k * (SIX - 1)
  {
    hide Coefficients, CarryInto;
    var c := Coefficients(a6, b6);
    forall j | 0 <= j < |c|
      ensures 0 <= c[j] <= k * SQUARE
    {
      CoefficientBound(a6, b6, j);
      MulLe(if |a6| <= k then |a6| else |b6|, k, SQUARE, SQUARE);
    }
    CarryBound(c, k, i);
  }

  lemma ShortCarriesFit(a6: seq<int>, b6: seq<int>)
    requires IsDigits(a6, SIX) && IsDigits(b6, SIX) && (|a6| <= SHORT || |b6| <= SHORT)
    ensures CarriesFit(Coefficients(a6, b6))
  {
    hide Coefficients, CarryInto;
    forall i | 0 <= i <= |Coefficients(a6, b6)|
      ensures 0 <= CarryInto(Coefficients(a6, b6), i) <= INT_MAX
    {
      CarryLimit(a6, b6, SHORT, i);
    }
  }

  /** Operands that begin with more than 2147 greatest limbs: the product comes out wrong. */
  lemma LongProductWrong(a6: seq<int>, b6: seq<int>)
    requires IsDigits(a6, SIX) && IsDigits(b6, SIX) && AllNines(a6, SHORT + 1) && AllNines(b6, SHORT + 1)
    ensures !CarriesFit(Coefficients(a6, b6))
    ensures Eval(Limbs(Coefficients(a6, b6)), SIX) != Eval(a6, SIX) * Eval(b6, SIX)
  {
    hide Coefficients, CarryInto, Limbs, Eval, Pow;
    var c := Coefficients(a6, b6);
    CoefficientCount(a6, b6);
    ProductValue(a6, b6);
    forall i | 0 <= i <= SHORT
      ensures 0 <= CarryInto(c, i) <= INT_MAX
    {
      if i > 0 {
        NinesCarry(a6, b6, i);
      } else {
        NoCarryYet(c);
      }
    }
    NinesCarry(a6, b6, SHORT + 1);
    LossShows(c, SHORT);
  }

  lemma NoCarryYet(c: seq<int>)
    ensures CarryInto(c, 0) == 0
  {
  }

  /** Whether the carries of all operands of these lengths fit an `int`. */
  ghost predicate AllCarriesFit(m: nat, n: nat) {
    forall a6, b6 :: |a6| == m && |b6| == n && IsDigits(a6, SIX) && IsDigits(b6, SIX) ==> CarriesFit(Coefficients(a6, b6))
  }

  /** Whether the limbs left by the carry loop are the product, for all operands of these lengths. */
  ghost predicate AllExact(m: nat, n: nat) {
    forall a6, b6 :: |a6| == m && |b6| == n && IsDigits(a6, SIX) && IsDigits(b6, SIX) ==>
      Eval(Limbs(Coefficients(a6, b6)), SIX) == Eval(a6, SIX) * Eval(b6, SIX)
  }

  /** Both hold exactly when the shorter operand has at most 2147 limbs. */
  lemma ExactIff(m: nat, n: nat)
    ensures AllCarriesFit(m, n) <==> m <= SHORT || n <= SHORT
    ensures AllExact(m, n) <==> m <= SHORT || n <= SHORT
  {
    hide Coefficients, CarriesFit, Limbs, Eval;
    if m <= SHORT || n <= SHORT {
      forall a6, b6 | |a6| == m && |b6| == n && IsDigits(a6, SIX) && IsDigits(b6, SIX)
        ensures CarriesFit(Coefficients(a6, b6)) && Eval(Limbs(Coefficients(a6, b6)), SIX) == Eval(a6, SIX) * Eval(b6, SIX)
      {
        ShortCarriesFit(a6, b6);
        ProductValue(a6, b6);
        FittingIsExact(Coefficients(a6, b6));
      }
    } else {
      LongProductWrong(seq(m, _ => SIX - 1), seq(n, _ => SIX - 1));
    }
  }

  /** Pad, multiply, carry: within the span no sum leaves 64 bits, and the carry loop works on the
      coefficients of the product. */
  method MultiplySix(a6: seq<int>, b6: seq<int>) returns (r: seq<int>)
    requires IsDigits(a6, SIX) && IsDigits(b6, SIX) && |a6| <= SPAN && |b6| <= SPAN
    ensures r == Limbs(Coefficients(a6, b6))
  {
    hide Limbs, Karatsuba.Convolution, PaddedLength;
    var a, b := Pad(a6, b6);
    PaddedLengthCovers(|a6|, |b6|);
    KaratsubaFits(a6, b6);
    var c := Karatsuba.Multiply(a, b);
    r := Carry(c);
  }

  /** Within the span, what the carry loop adds up fits a `long long`. */
  lemma SumsFit(a6: seq<int>, b6: seq<int>, i: nat)
    requires IsDigits(a6, SIX) && IsDigits(b6, SIX) && |a6| <= SPAN && i < |Coefficients(a6, b6)|
    ensures var c := Coefficients(a6, b6); -LLONG_MAX <= c[i] + IntCarry(c, i) <= LLONG_MAX
  {
    hide Coefficients, IntCarry;
    CastRange(Coefficients(a6, b6), i);
    CoefficientBound(a6, b6, i);
    MulLe(|a6|, SPAN, SQUARE, SQUARE);
  }

  lemma CastRange(c: seq<int>, i: nat)
    requires i <= |c|
    ensures -0x8000_0000 <= IntCarry(c, i) <= INT_MAX
  {
    hide TruncDiv;
  }
}
