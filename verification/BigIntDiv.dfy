/** Normalised schoolbook long division, `divmod`. */
module BigIntDiv {
  import opened Wrappers
  import opened Digits
  import opened BigIntCore
  import opened BigIntSmall

  function Top(a: seq<int>): int
    requires a != []
  {
    a[|a| - 1]
  }

  lemma {:induction false} EvalOfTwo(s: seq<int>)
    requires 1 <= |s| <= 2
    ensures Eval(s, BASE) == BASE * Limb(s, 1) + s[0]
  {
    if |s| == 2 {
      assert s[1..] == [s[1]] && [s[1]][1..] == [];
      assert Eval([s[1]], BASE) == s[1] + BASE * Eval([], BASE);
    } else {
      assert s[1..] == [];
    }
  }

  lemma BracketAlgebra(low: int, p: int, t: int)
    requires 0 <= low < p
    ensures t * p <= low + p * t < (t + 1) * p
  {
    assert p * t == t * p && (t + 1) * p == t * p + p;
  }

  /** What the two limbs the quotient digit is estimated from say about the dividend. */
  lemma TopTwoLimbs(r: seq<int>, n: nat)
    requires IsDigits(r, BASE) && 1 <= n && |r| <= n + 1
    ensures var t := BASE * Limb(r, n) + Limb(r, n - 1);
            t * Pow(BASE, n - 1) <= Eval(r, BASE) < (t + 1) * Pow(BASE, n - 1)
  {
    if |r| < n {
      EvalBound(r, BASE);
      PowMono(BASE, |r|, n - 1);
    } else {
      EvalSplit(r, n - 1, BASE);
      EvalBound(r[..n - 1], BASE);
      EvalOfTwo(r[n - 1..]);
      BracketAlgebra(Eval(r[..n - 1], BASE), Pow(BASE, n - 1), BASE * Limb(r, n) + Limb(r, n - 1));
    }
  }

  /** The estimated digit `d` is never below the true digit `q`. */
  lemma EstimateNotTooSmall(dividend: int, divisor: int, p: int, top: int, t: int, q: int)
    requires p > 0 && top > 0 && t >= 0 && q >= 0
    requires top * p <= divisor && dividend < (t + 1) * p
    requires q * divisor <= dividend
    ensures q <= t / top
  {
    assert q * top <= t by {
      MulLe(q, q, top * p, divisor);
      assert q * (top * p) == (q * top) * p;
      if q * top >= t + 1 {
        MulLe(t + 1, q * top, p, p);
      }
    }
    var d := t / top;
    assert t == top * d + t % top;
    if q >= d + 1 {
      MulLe(d + 1, q, top, top);
    }
  }

  /** It exceeds the true digit by at most two, because the divisor is normalised. */
  lemma EstimateNotTooLarge(dividend: int, divisor: int, p: int, top: int, t: int, q: int)
    requires p > 0 && t >= 0 && 0 <= q < BASE && 2 * top >= BASE
    requires 0 <= divisor < (top + 1) * p && t * p <= dividend
    requires dividend < (q + 1) * divisor
    ensures t / top <= q + 2
  {
    var d := t / top;
    assert d * top <= t by { assert t == top * d + t % top; }
    if d >= q + 3 {
      TopHeavy(q, top);
      var x, y := (q + 3) * top, (q + 1) * (top + 1);
      assert x * p <= dividend by {
        MulLe(q + 3, d, top, top);
        MulLe(x, t, p, p);
      }
      assert dividend < y * p by {
        MulAssoc(q + 1, top + 1, p);
        MulLe(q + 1, q + 1, divisor + 1, (top + 1) * p);
        assert (q + 1) * (divisor + 1) == (q + 1) * divisor + q + 1;
      }
      MulLe(y, x, p, p);
    }
  }

  lemma TopHeavy(q: int, top: int)
    requires 0 <= q && q + 1 <= 2 * top
    ensures 0 <= (q + 1) * (top + 1) <= (q + 3) * top
  {
    assert (q + 3) * top == q * top + 3 * top;
    assert (q + 1) * (top + 1) == q * top + q + top + 1;
    MulLe(0, q, 0, top);
  }

  /** The normalising factor lifts the top limb to at least half the base. */
  lemma NormaliserLifts(top: int)
    requires 1 <= top < BASE
    ensures var norm := BASE / (top + 1); 1 <= norm <= BASE / 2 && (top + 1) * norm <= BASE && 2 * (top * norm) >= BASE
  {
    var norm := BASE / (top + 1);
    var rest := BASE % (top + 1);
    assert BASE == (top + 1) * norm + rest && 0 <= rest <= top;
    assert (top + 1) * norm == top * norm + norm;
    if norm <= 0 {
      MulLe(0, top + 1, 0, -norm);
    }
    assert norm <= BASE / 2 by {
      MulLe(2, top + 1, norm, norm);
    }
    if 2 * (top * norm) < BASE {
      // top * norm < norm + rest, so (top - 1) * norm < rest <= top
      assert (top - 1) * norm == top * norm - norm;
      if norm >= 2 && top >= 2 {
        MulLe(top - 1, top - 1, 2, norm);
      }
    }
  }

  /** Multiplying by the normaliser keeps the limb count. */
  lemma NormalisedShape(b1: BigInt, b: BigInt, norm: int)
    requires Canonical(b1) && b1.a != [] && Canonical(b)
    requires norm == BASE / (Top(b1.a) + 1) && Mag(b) == Mag(b1) * norm
    ensures |b.a| == |b1.a| && b.a != [] && 2 * Top(b.a) >= BASE
  {
    var n, top := |b1.a| - 1, Top(b1.a);
    var p := Pow(BASE, n);
    NormaliserLifts(top);
    TopDigit(b1.a, BASE);
    PowPositive(BASE, n);
    ScaledBracket(top, norm, p, Mag(b1));
    NormalisedLength(b, n, top * norm);
  }

  lemma ScaledBracket(top: int, norm: int, p: int, m: int)
    requires 1 <= top && 1 <= norm && 1 <= p && (top + 1) * norm <= BASE
    requires top * p <= m < (top + 1) * p
    ensures (top * norm) * p <= m * norm < BASE * p
  {
    MulLe(1, top, 1, p);
    MulLe(top * p, m, norm, norm);
    assert (top * p) * norm == (top * norm) * p;
    MulLe(m + 1, (top + 1) * p, norm, norm);
    assert (m + 1) * norm == m * norm + norm;
    assert ((top + 1) * p) * norm == ((top + 1) * norm) * p;
    MulLe((top + 1) * norm, BASE, p, p);
  }

  lemma LengthAtMost(x: BigInt, n: nat)
    requires Canonical(x) && Mag(x) < Pow(BASE, n)
    ensures |x.a| <= n
  {
    if |x.a| > n {
      LeadingZeroByValue(x.a, BASE);
      PowMono(BASE, n, |x.a| - 1);
    }
  }

  lemma LengthAtLeast(x: BigInt, n: nat)
    requires Canonical(x) && Mag(x) >= Pow(BASE, n)
    ensures |x.a| > n
  {
    EvalBound(x.a, BASE);
    if |x.a| <= n {
      PowMono(BASE, |x.a|, n);
    }
  }

  lemma NormalisedLength(b: BigInt, n: nat, low: int)
    requires Canonical(b) && 1 <= low
    requires low * Pow(BASE, n) <= Mag(b) < BASE * Pow(BASE, n)
    ensures |b.a| == n + 1 && Top(b.a) >= low
  {
    PowPositive(BASE, n);
    MulLe(1, low, Pow(BASE, n), Pow(BASE, n));
    LengthAtLeast(b, n);
    LengthAtMost(b, n + 1);
    assert Top(b.a) >= low by {
      TopDigit(b.a, BASE);
      if Top(b.a) + 1 <= low {
        MulLe(Top(b.a) + 1, low, Pow(BASE, n), Pow(BASE, n));
      }
    }
  }

  lemma ShortEnough(r: BigInt, b: BigInt)
    requires Canonical(r) && Canonical(b) && Mag(r) < BASE * Mag(b)
    ensures |r.a| <= |b.a| + 1
  {
    EvalBound(b.a, BASE);
    LengthAtMost(r, |b.a| + 1);
  }

  /** The estimate of one quotient digit, with its bracket. */
  method EstimateDigit(r: BigInt, b: BigInt) returns (d: int)
    requires Canonical(r) && r.sign == 1 && Canonical(b) && b.sign == 1
    requires b.a != [] && 2 * Top(b.a) >= BASE && Mag(r) < BASE * Mag(b)
    ensures Mag(b) > 0 && Mag(r) >= 0
    ensures Mag(r) / Mag(b) <= d <= Mag(r) / Mag(b) + 2
    ensures 0 <= Mag(r) / Mag(b) < BASE
  {
    ShortEnough(r, b);
    MagZero(b);
    MagZero(r);
    var n := |b.a|;
    var s1 := if |r.a| <= n then 0 else r.a[n];
    var s2 := if |r.a| <= n - 1 then 0 else r.a[n - 1];
    assert s1 == Limb(r.a, n) && s2 == Limb(r.a, n - 1);
    var t := BASE * s1 + s2;
    assert 0 <= t <= LLONG_MAX;
    d := t / Top(b.a);
    TopTwoLimbs(r.a, n);
    TopDigit(b.a, BASE);
    PowPositive(BASE, n - 1);
    DivBracket(Mag(r), Mag(b));
    EstimateNotTooSmall(Mag(r), Mag(b), Pow(BASE, n - 1), Top(b.a), t, Mag(r) / Mag(b));
    EstimateNotTooLarge(Mag(r), Mag(b), Pow(BASE, n - 1), Top(b.a), t, Mag(r) / Mag(b));
  }

  lemma DivBracket(n: int, d: int)
    requires d > 0 && 0 <= n < BASE * d
    ensures 0 <= n / d < BASE && (n / d) * d <= n < (n / d + 1) * d
  {
    var q := n / d;
    assert n == d * q + n % d;
    assert (q + 1) * d == d * q + d;
    if q >= BASE {
      MulLe(BASE, q, d, d);
    }
    if q < 0 {
      MulLe(1, -q, d, d);
    }
  }

  function UpToTwo(v: int, k: int): int { if k <= 0 then 0 else if k == 1 then v else v + v }

  /** Adds the divisor back while the remainder is negative: at most twice. */
  method CorrectDigit(r0: BigInt, b: BigInt, d0: int, ghost q: int, ghost rem: int) returns (d: int, r: BigInt)
    requires Canonical(r0) && Canonical(b) && b.sign == 1 && |r0.a| <= |b.a| + 4 && |b.a| + 8 <= INT_MAX
    requires q <= d0 <= q + 2 && 0 <= rem < Mag(b) && Value(r0) == rem - UpToTwo(Mag(b), d0 - q)
    ensures d == q && Canonical(r) && Value(r) == rem
  {
    d, r := d0, r0;
    var negative := Less(r, Zero);
    while negative
      invariant Canonical(r) && |r.a| <= |b.a| + 4 + (d0 - d)
      invariant q <= d <= d0
      invariant negative <==> Value(r) < 0
      invariant Value(r) == rem - UpToTwo(Mag(b), d - q)
      decreases d - q
    {
      r := Add(r, b);
      d := d - 1;
      negative := Less(r, Zero);
    }
    assert d0 - d <= 2;  // so many corrections
  }

  /** Subtracts the estimated multiple of the divisor and corrects the estimate. */
  method ReduceDigit(r0: BigInt, b: BigInt) returns (d: int, r: BigInt)
    requires Canonical(r0) && r0.sign == 1 && Canonical(b) && b.sign == 1
    requires b.a != [] && 2 * Top(b.a) >= BASE && Mag(r0) < BASE * Mag(b)
    requires |b.a| + 8 <= INT_MAX
    ensures Mag(b) > 0 && d == Mag(r0) / Mag(b) && 0 <= d < BASE
    ensures Canonical(r) && r.sign == 1 && Mag(r) == Mag(r0) % Mag(b) && 0 <= Mag(r) < Mag(b)
    ensures |r.a| <= |b.a|
  {
    var estimate := EstimateDigit(r0, b);
    ShortEnough(r0, b);
    var m := MulSmall(b, estimate);
    var r1 := Sub(r0, m);
    Overshoot(Mag(r0), Mag(b), estimate);
    d, r := CorrectDigit(r1, b, estimate, Mag(r0) / Mag(b), Mag(r0) % Mag(b));
    MagZero(r);
    RemainderShorter(r, b);
  }

  lemma Overshoot(n: int, v: int, d: int)
    requires v > 0 && n / v <= d <= n / v + 2
    ensures n - v * d == n % v - UpToTwo(v, d - n / v) && 0 <= n % v < v
  {
    var q := n / v;
    assert n == v * q + n % v;
    assert v * (q + 1) == v * q + v && v * (q + 2) == v * q + v + v;
  }

  /** One pass of the digit loop: brings down limb `i` of `a` and stores its quotient digit. */
  method DivideStep(a: seq<int>, q: seq<int>, i: nat, r: BigInt, b: BigInt) returns (q': seq<int>, r': BigInt)
    requires IsDigits(a, BASE) && i < |a| == |q|
    requires Canonical(b) && b.sign == 1 && b.a != [] && 2 * Top(b.a) >= BASE && |b.a| + 8 <= INT_MAX
    requires Canonical(r) && r.sign == 1 && 0 <= Mag(r) < Mag(b) && |r.a| <= |b.a|
    requires (q[i + 1..], Mag(r)) == DivTop(a[i + 1..], Mag(b))
    ensures |q'| == |q|
    ensures Canonical(r') && r'.sign == 1 && 0 <= Mag(r') < Mag(b) && |r'.a| <= |b.a|
    ensures (q'[i..], Mag(r')) == DivTop(a[i..], Mag(b))
  {
    var r1 := BringDown(r, a[i], b);
    var d;
    d, r' := ReduceDigit(r1, b);
    q' := q[i := d];
    DivTopStep(a, q, i, Mag(b), Mag(r), d, Mag(r'));
  }

  /** The digit loop.  Estimating and correcting computes exactly the schoolbook quotient and
      remainder. */
  method LongDivide(a: BigInt, b: BigInt) returns (q: seq<int>, r: BigInt)
    requires Canonical(a) && Canonical(b) && b.sign == 1
    requires b.a != [] && 2 * Top(b.a) >= BASE
    requires |a.a| <= INT_MAX && |b.a| + 8 <= INT_MAX
    ensures Canonical(r) && r.sign == 1 && 0 <= Mag(r) < Mag(b)
    ensures (q, Mag(r)) == DivTop(a.a, Mag(b))
  {
    q := seq(|a.a|, _ => 0);
    r := Zero;
    MagZero(b);
    var i := |a.a| - 1;
    assert q[i + 1..] == [] && a.a[i + 1..] == [];
    assert (q[i + 1..], Mag(r)) == DivTop(a.a[i + 1..], Mag(b));
    while i >= 0
      invariant -1 <= i < |a.a| == |q|
      invariant Canonical(r) && r.sign == 1 && 0 <= Mag(r) < Mag(b) && |r.a| <= |b.a|
      invariant (q[i + 1..], Mag(r)) == DivTop(a.a[i + 1..], Mag(b))
    {
      q, r := DivideStep(a.a, q, i, r, b);
      i := i - 1;
    }
    assert i + 1 == 0;
    assert a.a[i + 1..] == a.a && q[i + 1..] == q;
  }

  /** `r *= base; r += limb`. */
  method BringDown(r: BigInt, limb: int, ghost b: BigInt) returns (r1: BigInt)
    requires Canonical(r) && r.sign == 1 && 0 <= limb < BASE && |r.a| + 3 <= INT_MAX
    requires Mag(r) < Mag(b)
    ensures Canonical(r1) && r1.sign == 1 && Mag(r1) == limb + Mag(r) * BASE
    ensures Mag(r1) < BASE * Mag(b)
  {
    MagZero(r);
    var s := MulSmall(r, BASE);
    var l := FromInt(limb);
    r1 := Add(s, l);
    MagZero(r1);
  }

  /** Division of magnitudes: normalises, divides, and leaves the remainder scaled by the
      normaliser, of which it is an exact multiple. */
  method DivModMagnitudes(a1: BigInt, b1: BigInt) returns (q: seq<int>, rn: BigInt, norm: int)
    requires Canonical(a1) && Canonical(b1) && b1.a != []
    requires |a1.a| + 2 <= INT_MAX && |b1.a| + 8 <= INT_MAX
    ensures 1 <= norm <= INT_MAX && IsDigits(q, BASE) && |q| <= |a1.a| + 2
    ensures Canonical(rn) && rn.sign == 1
    ensures var rem := Mag(a1) - Mag(b1) * Eval(q, BASE);
            0 <= rem < Mag(b1) && Mag(rn) == norm * rem
  {
    norm := BASE / (b1.a[|b1.a| - 1] + 1);
    NormaliserLifts(Top(b1.a));
    var a := MulSmall(Abs(a1), norm);
    var b := MulSmall(Abs(b1), norm);
    SignOfProduct(a1, a, norm);
    SignOfProduct(b1, b, norm);
    NormalisedShape(b1, b, norm);
    q, rn := LongDivide(a, b);
    DivTopIsDivision(a.a, Mag(b));
    ExactDenormalise(Mag(a1), Mag(b1), norm, Eval(q, BASE), Mag(rn));
  }

  /** `divmod`: quotient truncated toward zero, remainder of the dividend's sign. */
  method DivMod(a1: BigInt, b1: BigInt) returns (q: BigInt, r: BigInt)
    requires Canonical(a1) && Canonical(b1) && b1.a != []
    requires |a1.a| + 2 <= INT_MAX && |b1.a| + 8 <= INT_MAX
    ensures Canonical(q) && Canonical(r)
    ensures Value(a1) == Value(q) * Value(b1) + Value(r)
    ensures AbsInt(Value(r)) < AbsInt(Value(b1))
    ensures Value(r) == 0 || (Value(r) < 0 <==> Value(a1) < 0)
    ensures |r.a| <= |b1.a| && |q.a| <= |a1.a| + 2
  {
    var qa, rn, norm := DivModMagnitudes(a1, b1);
    ghost var rem := Mag(a1) - Mag(b1) * Eval(qa, BASE);
    q := Trim(BigInt(a1.sign * b1.sign, qa));
    var rs := Trim(BigInt(a1.sign, rn.a));
    r := DivSmall(rs, norm);
    MagZero(a1);
    TruncatedDivision(a1.sign, b1.sign, Mag(a1), Mag(b1), Eval(qa, BASE), norm, rem);
    RemainderShorter(r, b1);
  }

  lemma SignOfProduct(x: BigInt, y: BigInt, v: int)
    requires Canonical(x) && Canonical(y) && v > 0 && Value(y) == Value(Abs(x)) * v
    ensures y.sign == 1 && Mag(y) == Mag(x) * v
  {
    MagZero(x);
    MagZero(y);
    MulLe(0, Mag(x), 0, v);
  }

  /** The normalised remainder is a multiple of the normaliser. */
  lemma ExactDenormalise(a: int, b: int, norm: int, q: int, rn: int)
    requires norm > 0 && a * norm == (b * norm) * q + rn && 0 <= rn < b * norm
    ensures rn == norm * (a - b * q) && 0 <= a - b * q < b
  {
    var rem := a - b * q;
    assert rn == norm * rem by {
      assert (b * norm) * q == norm * (b * q);
      assert norm * (a - b * q) == a * norm - norm * (b * q);
    }
    if rem < 0 {
      MulLe(1, norm, 1, -rem);
    } else if rem >= b {
      MulLe(norm, norm, b, rem);
    }
  }

  lemma ExactQuotient(sign: int, norm: int, rem: int)
    requires (sign == 1 || sign == -1) && norm > 0 && rem >= 0
    ensures TruncDiv(sign * (norm * rem), norm) == sign * rem
  {
    MulLe(0, norm, 0, rem);
    DivIsUnique(norm * rem, norm, rem, 0);
    DivIsUnique(0, norm, 0, 0);
    if rem > 0 {
      MulLe(1, norm, 1, rem);
    }
  }

  lemma SignedDivision(sa: int, sb: int, a: int, b: int, q: int, rem: int)
    requires (sa == 1 || sa == -1) && (sb == 1 || sb == -1) && a == b * q + rem
    ensures sa * a == (sa * sb * q) * (sb * b) + sa * rem
  {
    assert (sa * sb * q) * (sb * b) == sa * (b * q) by {
      if sb == 1 {
        assert (sa * q) * b == sa * (b * q);
      } else {
        assert (-(sa * q)) * (-b) == (sa * q) * b == sa * (b * q);
      }
    }
    assert sa * (b * q + rem) == sa * (b * q) + sa * rem;
  }

  lemma DividendNotZero(a: int, b: int, q: int)
    requires a >= 0 && 0 <= a - b * q < b
    ensures a == 0 ==> a - b * q == 0
  {
    if q > 0 {
      MulLe(b, b, 1, q);
    } else if q < 0 {
      MulLe(b, b, 1, -q);
    }
  }

  /** Signs: the quotient is truncated toward zero and the remainder follows the dividend. */
  lemma TruncatedDivision(sa: int, sb: int, a: int, b: int, q: int, norm: int, rem: int)
    requires (sa == 1 || sa == -1) && (sb == 1 || sb == -1) && norm > 0
    requires a >= 0 && rem == a - b * q && 0 <= rem < b
    ensures var vr := TruncDiv(sa * (norm * rem), norm);
            && sa * a == (sa * sb * q) * (sb * b) + vr
            && AbsInt(vr) < AbsInt(sb * b)
            && (vr == 0 || (vr < 0 <==> sa * a < 0))
  {
    ExactQuotient(sa, norm, rem);
    SignedDivision(sa, sb, a, b, q, rem);
    DividendNotZero(a, b, q);
  }

  lemma RemainderShorter(r: BigInt, b: BigInt)
    requires Canonical(r) && Canonical(b) && AbsInt(Value(r)) < AbsInt(Value(b))
    ensures |r.a| <= |b.a|
  {
    MagZero(r);
    MagZero(b);
    if |r.a| > |b.a| {
      LengthOrders(b.a, r.a, BASE);
    }
  }
}
