/** `convert_base` and `operator*` of two big integers. */
module BigIntMul {
  import opened Digits
  import opened BigIntCore
  import opened BigIntSmall
  import opened SixDigits

  /** A radix of `d` decimal digits. */
  function Radix(d: nat): int { Pow(10, d) }

  lemma RadixValues()
    ensures Radix(6) == SIX && Radix(9) == BASE
  {
    assert Pow(10, 3) == 1000;
    PowAdd(10, 3, 3);
    PowAdd(10, 6, 3);
  }

  /** Limbs of either sign, each short of a whole unit. */
  predicate Short(s: seq<int>, b: int) { forall i :: 0 <= i < |s| ==> -b < s[i] < b }

  /** Drops leading zeros. */
  method Strip(s: seq<int>, b: int) returns (r: seq<int>)
    ensures NoLeadingZero(r) && Eval(r, b) == Eval(s, b) && r <= s
  {
    r := s;
    while r != [] && r[|r| - 1] == 0
      invariant Eval(r, b) == Eval(s, b) && r <= s
      decreases |r|
    {
      EvalPrefixStep(r, |r| - 1, b);
      assert r[..|r| - 1 + 1] == r;
      r := r[..|r| - 1];
    }
  }

  /** The digits already emitted, plus what is still buffered in `cur`. */
  function Buffered(res: seq<int>, cur: int, p: int): int { Eval(res, p) + Pow(p, |res|) * cur }

  lemma EmitOne(res: seq<int>, cur: int, p: int)
    requires p >= 1
    ensures Buffered(res + [TruncMod(cur, p)], TruncDiv(cur, p), p) == Buffered(res, cur, p)
  {
    TruncParts(cur, p);
    hide TruncMod, TruncDiv;
    EvalPush(res, TruncMod(cur, p), p);
    EmitAlgebra(Pow(p, |res|), p, cur, TruncMod(cur, p), TruncDiv(cur, p));
  }

  lemma EmitAlgebra(w: int, p: int, cur: int, low: int, high: int)
    requires cur == p * high + low
    ensures w * low + (p * w) * high == w * cur
  {
    assert (p * w) * high == w * (p * high);
    assert w * (p * high + low) == w * (p * high) + w * low;
  }

  /** The part of the buffer above the emitted digit. */
  lemma HighPart(cur: int, cd: nat, d: nat)
    requires d <= cd && -Radix(cd) < cur < Radix(cd)
    ensures Radix(d) >= 1 && -Radix(cd - d) < TruncDiv(cur, Radix(d)) < Radix(cd - d)
    ensures cur >= 0 ==> TruncDiv(cur, Radix(d)) >= 0
  {
    PowPositive(10, d);
    PowAdd(10, d, cd - d);
    HighQuotient(AbsInt(cur), Radix(d), Radix(cd - d));
  }

  lemma HighQuotient(n: int, p: int, h: int)
    requires 0 <= n < p * h && p >= 1
    ensures 0 <= n / p < h
  {
    var q := n / p;
    assert n == p * q + n % p;
    if q >= h {
      MulLe(p, p, h, q);
    }
    if q < 0 {
      MulLe(p, p, 1, -q);
    }
  }

  /** The inner loop of `convert_base`: emits digits while a whole new digit is buffered. */
  method Emit(res0: seq<int>, cur0: int, cd0: nat, d: nat, ghost shift0: nat)
    returns (res: seq<int>, cur: int, cd: nat, ghost shift: nat)
    requires 1 <= d && Short(res0, Radix(d)) && -Radix(cd0) < cur0 < Radix(cd0) && Pow(Radix(d), |res0|) == Radix(shift0)
    ensures cd < d && Short(res, Radix(d)) && -Radix(cd) < cur < Radix(cd)
    ensures cur0 >= 0 && IsDigits(res0, Radix(d)) ==> cur >= 0 && IsDigits(res, Radix(d))
    ensures Buffered(res, cur, Radix(d)) == Buffered(res0, cur0, Radix(d))
    ensures Pow(Radix(d), |res|) == Radix(shift) && shift + cd == shift0 + cd0
  {
    res, cur, cd, shift := res0, cur0, cd0, shift0;
    PowPositive(10, d);
    while cd >= d
      invariant Short(res, Radix(d)) && -Radix(cd) < cur < Radix(cd)
      invariant cur0 >= 0 && IsDigits(res0, Radix(d)) ==> cur >= 0 && IsDigits(res, Radix(d))
      invariant Buffered(res, cur, Radix(d)) == Buffered(res0, cur0, Radix(d))
      invariant Pow(Radix(d), |res|) == Radix(shift) && shift + cd == shift0 + cd0
      decreases cd
    {
      EmitOne(res, cur, Radix(d));
      HighPart(cur, cd, d);
      TruncParts(cur, Radix(d));
      PowAdd(10, d, shift);
      res := res + [TruncMod(cur, Radix(d))];
      cur := TruncDiv(cur, Radix(d));
      cd, shift := cd - d, shift + d;
    }
  }

  lemma AbsorbAlgebra(w: int, t: int, e: int, cur: int, limb: int)
    ensures e + w * (cur + limb * t) == (e + w * cur) + (w * t) * limb
  {
    assert w * (limb * t) == (w * t) * limb;
    assert w * (cur + limb * t) == w * cur + w * (limb * t);
  }

  /** Buffering one more old digit. */
  lemma Absorb(a: seq<int>, i: nat, od: nat, res: seq<int>, nd: nat, cur: int, cd: nat, shift: nat)
    requires i < |a| && Short(a, Radix(od)) && -Radix(cd) < cur < Radix(cd)
    requires Buffered(res, cur, Radix(nd)) == Eval(a[..i], Radix(od))
    requires Pow(Radix(nd), |res|) == Radix(shift) && Pow(Radix(od), i) == Radix(shift + cd)
    ensures Buffered(res, cur + a[i] * Radix(cd), Radix(nd)) == Eval(a[..i + 1], Radix(od))
    ensures -Radix(cd + od) < cur + a[i] * Radix(cd) < Radix(cd + od)
    ensures cur >= 0 && a[i] >= 0 ==> cur + a[i] * Radix(cd) >= 0
    ensures Pow(Radix(od), i + 1) == Radix(shift + (cd + od))
  {
    EvalPrefixStep(a, i, Radix(od));
    AbsorbAlgebra(Pow(Radix(nd), |res|), Radix(cd), Eval(res, Radix(nd)), cur, a[i]);
    PowAdd(10, shift, cd);
    assert shift + (cd + od) == od + (shift + cd);
    PowAdd(10, od, shift + cd);
    AbsorbRange(a[i], Radix(od), cur, Radix(cd));
    PowAdd(10, od, cd);
  }

  lemma AbsorbRange(limb: int, p: int, cur: int, t: int)
    requires -p < limb < p && -t < cur < t
    ensures -(p * t) < cur + limb * t < p * t && (cur >= 0 && limb >= 0 ==> cur + limb * t >= 0)
  {
    assert (p - 1) * t == p * t - t;
    if limb >= 0 {
      MulLe(limb, p - 1, t, t);
      MulLe(0, limb, 0, t);
    } else {
      MulLe(-limb, p - 1, t, t);
      MulLe(0, -limb, 0, t);
      assert limb * t == -(-limb * t);
    }
  }

  lemma BufferFitsLongLong(e: nat)
    requires e <= 17
    ensures Radix(e) <= LLONG_MAX
  {
    RadixValues();
    PowMono(10, e, 18);
    PowAdd(10, 9, 9);
  }

  lemma {:induction false} RadixPower(d: nat, k: nat)
    ensures Pow(Radix(d), k) == Pow(10, d * k)
  {
    if k > 0 {
      RadixPower(d, k - 1);
      assert d * k == d + d * (k - 1);
      PowAdd(10, d, d * (k - 1));
    } else {
      assert d * k == 0;
    }
  }

  /** Equal values in two digit widths: no leading zero limb means no superfluous digits. */
  lemma RebasedLength(r: seq<int>, nd: nat, a: seq<int>, od: nat)
    requires 1 <= od && 1 <= nd && IsDigits(a, Radix(od)) && IsDigits(r, Radix(nd)) && NoLeadingZero(r)
    requires Eval(r, Radix(nd)) == Eval(a, Radix(od))
    ensures |r| * nd < |a| * od + nd
  {
    if r != [] {
      var top := r[|r| - 1];
      assert top >= 1;
      hide Pow, Eval, IsDigits, Radix;
      RadixPositive(nd);
      RadixPositive(od);
      EvalBound(a, Radix(od));
      TopDigit(r, Radix(nd));
      RadixPower(nd, |r| - 1);
      RadixPower(od, |a|);
      var m, n := nd * (|r| - 1), od * |a|;
      PowPositive(10, m);
      MulLe(1, top, Pow(10, m), Pow(10, m));
      if n <= m {
        PowMono(10, n, m);
      }
      Distribute(nd, |r|);
    }
  }

  lemma RadixPositive(d: nat)
    ensures Radix(d) >= 1
  {
    PowPositive(10, d);
  }

  lemma Distribute(d: int, n: int)
    ensures d * (n - 1) == n * d - d
  {
  }

  /** `convert_base`: changes the number of decimal digits per limb and keeps the value, even that
      of limbs of both signs; proper limbs become proper ones, with no superfluous digits. */
  method ConvertBase(a: seq<int>, od: nat, nd: nat) returns (r: seq<int>)
    requires 1 <= od <= 9 && 1 <= nd <= 9 && Short(a, Radix(od))
    ensures NoLeadingZero(r) && Short(r, Radix(nd)) && Eval(r, Radix(nd)) == Eval(a, Radix(od))
    ensures IsDigits(a, Radix(od)) ==> IsDigits(r, Radix(nd)) && |r| * nd < |a| * od + nd
  {
    var res: seq<int>, cur, cd: nat := [], 0, 0;
    ghost var shift: nat := 0;
    var i := 0;
    while i < |a|
      invariant 0 <= i <= |a| && cd < nd && -Radix(cd) < cur < Radix(cd) && Short(res, Radix(nd))
      invariant IsDigits(a, Radix(od)) ==> cur >= 0 && IsDigits(res, Radix(nd))
      invariant Buffered(res, cur, Radix(nd)) == Eval(a[..i], Radix(od))
      invariant Pow(Radix(nd), |res|) == Radix(shift) && Pow(Radix(od), i) == Radix(shift + cd)
    {
      Absorb(a, i, od, res, nd, cur, cd, shift);
      BufferFitsLongLong(cd + od);
      cur := cur + a[i] * Radix(cd);
      res, cur, cd, shift := Emit(res, cur, cd + od, nd, shift);
      i := i + 1;
    }
    assert a[..i] == a;
    PowMono(10, cd, nd);
    EvalPush(res, cur, Radix(nd));
    PowPositive(10, nd);
    r := Strip(res + [cur], Radix(nd));
    if IsDigits(a, Radix(od)) {
      RebasedLength(r, nd, a, od);
    }
  }

  // ----- the product -----

  /** The magnitude in six-digit limbs. */
  ghost function Six(x: BigInt): seq<int>
    requires WellFormed(x)
  {
    MagNonNegative(x);
    DigitsOf(Mag(x), SIX)
  }

  lemma SixIs(x: BigInt, a6: seq<int>)
    requires WellFormed(x)
    ensures IsDigits(Six(x), SIX) && NoLeadingZero(Six(x)) && Eval(Six(x), SIX) == Mag(x)
    ensures IsDigits(a6, SIX) && NoLeadingZero(a6) && Eval(a6, SIX) == Mag(x) ==> a6 == Six(x)
  {
    MagNonNegative(x);
    DigitsOfValue(Mag(x), SIX);
    if IsDigits(a6, SIX) && NoLeadingZero(a6) && Eval(a6, SIX) == Mag(x) {
      EvalInjective(a6, Six(x), SIX);
    }
  }

  /** No sum of the multiplication leaves 64 bits. */
  ghost predicate InSpan(x: BigInt) { WellFormed(x) && |Six(x)| <= SPAN }

  /** No carry of the multiplication is cut off. */
  ghost predicate NoCarryLost(x: BigInt, y: BigInt)
    requires WellFormed(x) && WellFormed(y)
  {
    CarriesFit(Coefficients(Six(x), Six(y)))
  }

  /** The value the carry loop arrives at, with its casts. */
  ghost function MachineProduct(x: BigInt, y: BigInt): int
    requires WellFormed(x) && WellFormed(y)
  {
    x.sign * y.sign * Eval(Limbs(Coefficients(Six(x), Six(y))), SIX)
  }

  /** `operator*`: exact, and then canonical, exactly if no carry is cut off by its cast. */
  method Multiply(x: BigInt, y: BigInt) returns (r: BigInt)
    requires InSpan(x) && InSpan(y)
    ensures Signed(r) && Value(r) == MachineProduct(x, y)
    ensures MachineProduct(x, y) == Value(x) * Value(y) <==> NoCarryLost(x, y)
    ensures NoCarryLost(x, y) ==> Canonical(r)
  {
    hide Coefficients, CarriesFit, Limbs;
    RadixValues();
    var a6 := ConvertBase(x.a, 9, 6);
    var b6 := ConvertBase(y.a, 9, 6);
    SixIs(x, a6);
    SixIs(y, b6);
    var c6 := MultiplySix(a6, b6);
    LimbsShort(Coefficients(a6, b6));
    ExactIffFits(a6, b6);
    var c9 := ConvertBase(c6, 6, 9);
    var p := BigInt(x.sign * y.sign, c9);
    SignOfProduct(x, y, Mag(p));
    r := Trim(p);
  }

  lemma LimbsShort(c: seq<int>)
    ensures Short(Limbs(c), SIX)
  {
    forall i | 0 <= i < |Limbs(c)|
      ensures -SIX < Limbs(c)[i] < SIX
    {
      LimbAt(c, i);
      TruncParts(c[i] + IntCarry(c, i), SIX);
    }
  }

  lemma SignOfProduct(x: BigInt, y: BigInt, m: int)
    requires Signed(x) && Signed(y)
    ensures Signed(BigInt(x.sign * y.sign, [])) && (x.sign * y.sign * m == Value(x) * Value(y) <==> m == Mag(x) * Mag(y))
  {
    var p, q := Mag(x), Mag(y);
    if x.sign == 1 && y.sign == 1 {
    } else if x.sign == 1 {
      assert p * (-q) == -(p * q);
    } else if y.sign == 1 {
      assert (-p) * q == -(p * q);
    } else {
      assert (-p) * (-q) == p * q;
    }
  }

  // ----- the limb counts -----

  /** Limb counts that keep an operand within the span, and every product exact. */
  const LIMBS: nat := 10922
  const SHORT_LIMBS: nat := 1431

  lemma FewEnough(x: BigInt)
    requires WellFormed(x)
    ensures |x.a| <= LIMBS ==> InSpan(x)
    ensures |x.a| <= SHORT_LIMBS ==> |Six(x)| <= SHORT
  {
    SixDigitLength(x);
  }

  lemma SixDigitLength(x: BigInt)
    requires WellFormed(x)
    ensures |Six(x)| * 6 < |x.a| * 9 + 6
  {
    RadixValues();
    SixIs(x, []);
    RebasedLength(Six(x), 6, x.a, 9);
  }

  lemma ShortIsExact(x: BigInt, y: BigInt)
    requires WellFormed(x) && WellFormed(y) && (|x.a| <= SHORT_LIMBS || |y.a| <= SHORT_LIMBS)
    ensures NoCarryLost(x, y)
  {
    hide Coefficients, CarriesFit, Six;
    FewEnough(x);
    FewEnough(y);
    SixIs(x, []);
    SixIs(y, []);
    ShortCarriesFit(Six(x), Six(y));
  }

  /** Whether all operands of these limb counts are multiplied exactly. */
  ghost predicate AllProductsExact(m: nat, n: nat) {
    forall x, y :: WellFormed(x) && WellFormed(y) && |x.a| == m && |y.a| == n ==>
      MachineProduct(x, y) == Value(x) * Value(y)
  }

  lemma {:induction false} NinesValue(s: seq<int>, b: int)
    requires forall i :: 0 <= i < |s| ==> s[i] == b - 1
    ensures Eval(s, b) == Pow(b, |s|) - 1
  {
    if s != [] {
      NinesValue(s[1..], b);
      assert b * (Pow(b, |s| - 1) - 1) == Pow(b, |s|) - b;
    }
  }

  lemma SamePower(j: nat)
    ensures Pow(SIX, 3 * j) == Pow(BASE, 2 * j)
  {
    RadixValues();
    RadixPower(6, 3 * j);
    RadixPower(9, 2 * j);
    assert 6 * (3 * j) == 9 * (2 * j);
  }

  lemma LowPart(p: int, low: int, high: int, t: int)
    requires 0 <= low < p && low + p * high == p * t - 1
    ensures low == p - 1
  {
    var d := t - high;
    assert low == p * d - 1 by { assert p * (t - high) == p * t - p * high; }
    if d >= 2 {
      MulLe(p, p, 2, d);
    } else if d <= 0 {
      MulLe(p, p, 0, -d);
      assert p * d == -(p * (-d));
    }
  }

  /** The greatest number of `2 * j` limbs and more begins with `3 * j` greatest six-digit limbs. */
  lemma RebasedNines(x: BigInt, a6: seq<int>, j: nat)
    requires (forall i :: 0 <= i < |x.a| ==> x.a[i] == BASE - 1) && 1 <= 2 * j <= |x.a|
    requires IsDigits(a6, SIX) && Eval(a6, SIX) == Mag(x)
    ensures AllNines(a6, 3 * j)
  {
    var k, p, t := 3 * j, Pow(SIX, 3 * j), Pow(BASE, |x.a| - 2 * j);
    SamePower(j);
    NinesValue(x.a, BASE);
    PowAdd(BASE, 2 * j, |x.a| - 2 * j);
    PowPositive(BASE, |x.a| - 2 * j);
    PowPositive(SIX, k);
    assert Eval(a6, SIX) == p * t - 1;
    LongEnough(a6, k, t);
    EvalSplit(a6, k, SIX);
    EvalBound(a6[..k], SIX);
    LowPart(p, Eval(a6[..k], SIX), Eval(a6[k..], SIX), t);
    var nines := seq(k, _ => SIX - 1);
    NinesValue(nines, SIX);
    SameLengthInjective(a6[..k], nines, SIX);
    assert forall i :: 0 <= i < k ==> a6[i] == a6[..k][i];
  }

  lemma LongEnough(a6: seq<int>, k: nat, t: int)
    requires IsDigits(a6, SIX) && k >= 1 && t >= 1 && Eval(a6, SIX) == Pow(SIX, k) * t - 1
    ensures |a6| >= k
  {
    EvalBound(a6, SIX);
    PowPositive(SIX, k - 1);
    MulLe(Pow(SIX, k), Pow(SIX, k), 1, t);
    if |a6| < k {
      PowMono(SIX, |a6|, k - 1);
    }
  }

  /** All operands of `m` and `n` limbs are multiplied exactly if and only if one of them has at
      most 1431. */
  lemma ProductsExactIff(m: nat, n: nat)
    ensures AllProductsExact(m, n) <==> m <= SHORT_LIMBS || n <= SHORT_LIMBS
  {
    hide Coefficients, CarriesFit, Limbs, Six, Eval;
    if m <= SHORT_LIMBS || n <= SHORT_LIMBS {
      forall x, y | WellFormed(x) && WellFormed(y) && |x.a| == m && |y.a| == n
        ensures MachineProduct(x, y) == Value(x) * Value(y)
      {
        SignOfProduct(x, y, Eval(Limbs(Coefficients(Six(x), Six(y))), SIX));
        ShortIsExact(x, y);
        SixIs(x, []);
        SixIs(y, []);
        ProductValue(Six(x), Six(y));
        FittingIsExact(Coefficients(Six(x), Six(y)));
      }
    } else {
      TooLong(BigInt(1, seq(m, _ => BASE - 1)), BigInt(1, seq(n, _ => BASE - 1)));
    }
  }

  /** The greatest operands beyond the short limb count. */
  lemma TooLong(x: BigInt, y: BigInt)
    requires WellFormed(x) && WellFormed(y) && |x.a| > SHORT_LIMBS && |y.a| > SHORT_LIMBS
    requires (forall i :: 0 <= i < |x.a| ==> x.a[i] == BASE - 1) && forall i :: 0 <= i < |y.a| ==> y.a[i] == BASE - 1
    ensures !AllProductsExact(|x.a|, |y.a|)
  {
    hide Coefficients, CarriesFit, Limbs, Six;
    SixIs(x, []);
    SixIs(y, []);
    SignOfProduct(x, y, Eval(Limbs(Coefficients(Six(x), Six(y))), SIX));
    RebasedNines(x, Six(x), 716);
    RebasedNines(y, Six(y), 716);
    LongProductWrong(Six(x), Six(y));
  }
}
