/** `gcd` and `operator^`, built on division and multiplication. */
module BigIntAlgebra {
  import opened Wrappers
  import opened Digits
  import opened BigIntCore
  import opened BigIntSmall
  import opened BigIntDiv
  import opened BigIntMul

  predicate IsMultiple(n: int, d: int, k: int) { n == d * k }

  ghost predicate Divides(d: int, n: int) { exists k :: IsMultiple(n, d, k) }

  /** A common divisor that every common divisor divides. */
  ghost predicate IsGcd(g: int, a: int, b: int) {
    && Divides(g, a) && Divides(g, b)
    && forall d :: Divides(d, a) && Divides(d, b) ==> Divides(d, g)
  }

  lemma DividesCombination(d: int, x: int, y: int, q: int)
    requires Divides(d, x) && Divides(d, y)
    ensures Divides(d, q * x + y)
  {
    var j :| IsMultiple(x, d, j);
    var k :| IsMultiple(y, d, k);
    CombinationAlgebra(d, q, j, k);
    assert IsMultiple(q * x + y, d, q * j + k);
  }

  lemma CombinationAlgebra(d: int, q: int, j: int, k: int)
    ensures q * (d * j) + d * k == d * (q * j + k)
  {
    assert q * (d * j) == d * (q * j);
  }

  /** Euclid's step keeps the common divisors. */
  lemma EuclidStep(g: int, a: int, b: int, q: int, r: int)
    requires a == q * b + r && IsGcd(g, b, r)
    ensures IsGcd(g, a, b)
  {
    DividesCombination(g, b, r, q);
    forall d | Divides(d, a) && Divides(d, b)
      ensures Divides(d, g)
    {
      DividesCombination(d, b, a, -q);
      assert (-q) * b + a == r;
    }
  }

  lemma GcdWithZero(a: int)
    ensures IsGcd(a, a, 0)
  {
    assert IsMultiple(a, a, 1);
    assert IsMultiple(0, a, 0);
  }

  /** "Greatest" in the usual sense, when the inputs are not both zero. */
  lemma GcdIsGreatest(g: int, a: int, b: int, d: int)
    requires IsGcd(g, a, b) && (a != 0 || b != 0) && Divides(d, a) && Divides(d, b)
    ensures d <= AbsInt(g)
  {
    var k :| IsMultiple(g, d, k);
    if g == 0 {
      var i :| IsMultiple(a, g, i);
      var j :| IsMultiple(b, g, j);
    } else if d > 0 {
      assert k != 0;
      if k > 0 { MulLe(d, d, 1, k); } else { MulLe(d, d, 1, -k); assert d * (-k) == -(d * k); }
    }
  }

  function SignOf(n: int): int { if n > 0 then 1 else if n < 0 then -1 else 0 }

  /** How many remainders Euclid's algorithm takes. */
  function EuclidSteps(a: int, b: int): nat
    decreases AbsInt(b)
  {
    if b == 0 then 0 else 1 + EuclidSteps(b, TruncMod(a, b))
  }

  /** The sign of the answer: the remainders carry the signs of the two operands in turn, so it is
      that of the first operand after an even number of them, else that of the second. */
  function EuclidSign(a: int, b: int): int { if EuclidSteps(a, b) % 2 == 0 then SignOf(a) else SignOf(b) }

  /** The remainder of a truncated division is determined by its size and sign. */
  lemma RemainderIs(a: int, b: int, q: int, r: int)
    requires b != 0 && a == q * b + r && AbsInt(r) < AbsInt(b) && (r == 0 || (r < 0 <==> a < 0))
    ensures r == TruncMod(a, b)
  {
    var d := AbsInt(b);
    var s := if b > 0 then q else -q;
    assert q * b == d * s by {
      if b < 0 {
        assert q * b == (-q) * (-b);
      }
    }
    if a >= 0 {
      DivIsUnique(a, d, s, r);
    } else {
      assert -a == d * (-s) + -r by { assert d * (-s) == -(d * s); }
      DivIsUnique(-a, d, -s, -r);
    }
  }

  lemma RemainderSign(a: int, b: int)
    requires b != 0
    ensures TruncMod(a, b) == 0 || (TruncMod(a, b) < 0 <==> a < 0)
    ensures a == 0 ==> TruncMod(a, b) == 0
  {
    TruncatedLaw(a, b);
  }

  lemma EuclidSignStep(a: int, b: int)
    requires b != 0
    ensures EuclidSign(b, TruncMod(a, b)) == EuclidSign(a, b)
  {
    hide TruncMod;
    RemainderSign(a, b);
    var r, k := TruncMod(a, b), EuclidSteps(b, TruncMod(a, b));
    assert EuclidSteps(a, b) == 1 + k && (r == 0 ==> k == 0);
    hide EuclidSteps;
  }

  /** `gcd`. */
  method Gcd(a: BigInt, b: BigInt) returns (g: BigInt)
    requires Canonical(a) && Canonical(b)
    requires |a.a| + 8 <= INT_MAX && |b.a| + 8 <= INT_MAX
    ensures Canonical(g) && IsGcd(Value(g), Value(a), Value(b))
    ensures SignOf(Value(g)) == EuclidSign(Value(a), Value(b))
    ensures Value(a) >= 0 && Value(b) >= 0 ==> Value(g) >= 0
    ensures Value(a) <= 0 && Value(b) <= 0 ==> Value(g) <= 0
    decreases AbsInt(Value(b))
  {
    MagZero(b);
    if IsZero(b) {
      GcdWithZero(Value(a));
      g := a;
    } else {
      var q, r := DivMod(a, b);
      RemainderIs(Value(a), Value(b), Value(q), Value(r));
      EuclidSignStep(Value(a), Value(b));
      hide TruncMod, EuclidSteps;
      g := Gcd(b, r);
      EuclidStep(Value(g), Value(a), Value(b), Value(q), Value(r));
    }
  }

  lemma HalvingSteps(b: BigInt)
    requires Canonical(b) && !IsZero(b)
    ensures Value(b) != 0
    ensures TruncMod(Value(b), 2) != 0 <==> AbsInt(Value(b)) % 2 != 0
    ensures AbsInt(TruncDiv(Value(b), 2)) == AbsInt(Value(b)) / 2
  {
    MagZero(b);
  }

  /** The greatest power of two not above `n`. */
  function TopPower(n: nat): (p: nat)
    requires n > 0
    ensures 1 <= p <= n < 2 * p
  {
    if n == 1 then 1 else 2 * TopPower(n / 2)
  }

  /** The powers the result is made of, and those only, are short enough to be multiplied exactly:
      the last square used, and the part of the power below the top bit.  The loop also squares
      the top power, to no effect; that only has to stay within 64 bits. */
  ghost predicate Raisable(x: int, n: int) {
    n != 0 ==>
      var b, k := AbsInt(x), AbsInt(n);
      var p := TopPower(k);
      && Pow(b, p) < Pow(BASE, LIMBS) && Pow(b, k - p) < Pow(BASE, SHORT_LIMBS)
      && (p > 1 ==> Pow(b, p / 2) < Pow(BASE, SHORT_LIMBS))
  }

  lemma {:induction false} PowAbs(x: int, k: nat)
    ensures AbsInt(Pow(x, k)) == Pow(AbsInt(x), k)
  {
    if k > 0 {
      PowAbs(x, k - 1);
      AbsProduct(x, Pow(x, k - 1));
    }
  }

  lemma AbsProduct(x: int, y: int)
    ensures AbsInt(x * y) == AbsInt(x) * AbsInt(y)
  {
    if x < 0 {
      assert x * y == -((-x) * y);
    }
    if y < 0 {
      assert x * y == -(x * (-y)) && (-x) * y == -((-x) * (-y));
    }
    MulLe(0, AbsInt(x), 0, AbsInt(y));
  }

  /** Powers of a natural number: zero and one aside, a greater exponent gives no less. */
  lemma {:induction false} PowerOrder(b: nat, e: nat, k: nat)
    requires e <= k
    ensures 0 <= Pow(b, e) && (Pow(b, e) <= Pow(b, k) || Pow(b, e) <= 1)
  {
    if b > 0 {
      PowPositive(b, e);
      PowMono(b, e, k);
    } else {
      ZeroPower(e);
    }
  }

  lemma {:induction false} ZeroPower(e: nat)
    ensures 0 <= Pow(0, e) <= 1
  {
    if e > 0 {
      ZeroPower(e - 1);
    }
  }

  lemma FewLimbs(a: BigInt, n: nat)
    requires Canonical(a) && AbsInt(Value(a)) < Pow(BASE, n)
    ensures |a.a| <= n
  {
    MagZero(a);
    LengthAtMost(a, n);
  }

  lemma OneIsSmall()
    ensures 1 < Pow(BASE, SHORT_LIMBS) <= Pow(BASE, LIMBS)
  {
    PowMono(BASE, 1, SHORT_LIMBS);
    PowMono(BASE, SHORT_LIMBS, LIMBS);
  }

  /** The loop has `k` doubled so often that `m` is left of the exponent `n`, and `e` is done. */
  ghost predicate Halved(n: nat, k: nat, m: nat, e: nat) {
    k >= 1 && e < k && n == e + k * m && (m > 0 ==> TopPower(n) == k * TopPower(m))
  }

  /** What an odd exponent adds to the part that is done. */
  function Extra(k: nat, m: nat): nat { if m % 2 != 0 then k else 0 }

  lemma HalvedOnce(n: nat, k: nat, m: nat, e: nat)
    requires Halved(n, k, m, e) && m > 0
    ensures Halved(n, 2 * k, m / 2, e + Extra(k, m))
  {
    HalfAlgebra(k, m, m / 2, Extra(k, m));
    if m > 1 {
      MulAssoc(k, 2, TopPower(m / 2));
      assert TopPower(m) == 2 * TopPower(m / 2);
    }
  }

  lemma HalfAlgebra(k: nat, m: nat, h: nat, extra: nat)
    requires (m == 2 * h && extra == 0) || (m == 2 * h + 1 && extra == k)
    ensures k * m == extra + (2 * k) * h
  {
    assert (2 * k) * h == k * (2 * h);
    assert k * (2 * h + 1) == k * (2 * h) + k;
  }

  /** The sizes the precondition leaves for one step. */
  lemma StepBounds(x: int, n: int, k: nat, m: nat, e: nat)
    requires Raisable(x, n) && Halved(AbsInt(n), k, m, e) && m > 0
    ensures var b := AbsInt(x);
            && Pow(b, k) < Pow(BASE, LIMBS) && Pow(b, e) < Pow(BASE, LIMBS)
            && Pow(b, if m > 1 then k else e) < Pow(BASE, SHORT_LIMBS)
  {
    var b, top := AbsInt(x), TopPower(AbsInt(n));
    StepExponents(AbsInt(n), k, m, e);
    OneIsSmall();
    PowerOrder(b, k, top);
    PowerOrder(b, e, k);
    if m > 1 {
      PowerOrder(b, k, top / 2);
    }
  }

  /** What is multiplied at a step: within the span always, and exactly where it is used. */
  lemma StepSizes(x: int, n: int, a: BigInt, ans: BigInt, k: nat, m: nat, e: nat)
    requires Raisable(x, n) && Halved(AbsInt(n), k, m, e) && m > 0 && Canonical(a) && Canonical(ans)
    requires Value(a) == Pow(x, k) && Value(ans) == Pow(x, e)
    ensures InSpan(a) && InSpan(ans) && NoCarryLost(ans, a) && (m > 1 ==> NoCarryLost(a, a))
  {
    hide InSpan, NoCarryLost, Raisable, Halved, Pow, Value;
    StepBounds(x, n, k, m, e);
    PowAbs(x, k);
    PowAbs(x, e);
    FewLimbs(a, LIMBS);
    FewLimbs(ans, LIMBS);
    FewEnough(a);
    FewEnough(ans);
    if m > 1 {
      FewLimbs(a, SHORT_LIMBS);
      ShortIsExact(a, a);
    } else {
      FewLimbs(ans, SHORT_LIMBS);
    }
    ShortIsExact(ans, a);
  }

  lemma StepExponents(n: nat, k: nat, m: nat, e: nat)
    requires Halved(n, k, m, e) && m > 0
    ensures n > 0 && k <= TopPower(n) && (m > 1 ==> TopPower(n) > 1 && k <= TopPower(n) / 2)
    ensures m == 1 ==> k == TopPower(n) && e == n - TopPower(n)
  {
    MulLe(k, k, 1, TopPower(m));
    if m > 1 {
      MulLe(k, k, 2, TopPower(m));
    }
  }

  /** One step of binary exponentiation. */
  lemma StepPowers(x: int, k: nat, m: nat, e: nat)
    ensures Pow(x, k) * Pow(x, k) == Pow(x, 2 * k)
    ensures (if m % 2 != 0 then Pow(x, e) * Pow(x, k) else Pow(x, e)) == Pow(x, e + Extra(k, m))
  {
    PowAdd(x, k, k);
    PowAdd(x, e, k);
  }

  /** `operator^`: binary exponentiation.  The exponent's sign is ignored. */
  method Power(x: BigInt, n: BigInt) returns (ans: BigInt)
    requires Canonical(x) && Canonical(n) && Raisable(Value(x), Value(n))
    ensures Canonical(ans) && Value(ans) == Pow(Value(x), AbsInt(Value(n)))
  {
    hide InSpan, NoCarryLost, MachineProduct, Raisable, Halved, Pow, Extra;
    ans := FromInt(1);
    var a, b := x, n;
    ghost var t: nat := AbsInt(Value(n));
    ghost var k: nat, e: nat, m: nat := 1, 0, t;
    NotHalvedYet(Value(x), t);
    while !IsZero(b)
      invariant Canonical(ans) && Canonical(b) && m == AbsInt(Value(b)) && t == AbsInt(Value(n)) && Halved(t, k, m, e)
      invariant Value(ans) == Pow(Value(x), e) && (m > 0 ==> Canonical(a) && Value(a) == Pow(Value(x), k))
      decreases m
    {
      HalvingSteps(b);
      StepSizes(Value(x), Value(n), a, ans, k, m, e);
      StepPowers(Value(x), k, m, e);
      HalvedOnce(t, k, m, e);
      var odd := ModSmall(b, 2);
      if odd != 0 {
        ans := Multiply(ans, a);
      }
      a := Multiply(a, a);
      b := DivSmall(b, 2);
      k, e, m := 2 * k, e + Extra(k, m), m / 2;
    }
    MagZero(b);
    HalvedOut(t, k, e);
  }

  lemma NotHalvedYet(x: int, n: nat)
    ensures Halved(n, 1, n, 0) && Pow(x, 0) == 1 && Pow(x, 1) == x
  {
  }

  lemma HalvedOut(n: nat, k: nat, e: nat)
    ensures Halved(n, k, 0, e) ==> n == e
  {
  }
}
