/** Multiplication, division and remainder of a big integer by a 32-bit `int`. */
module BigIntSmall {
  import opened Wrappers
  import opened Digits
  import opened BigIntCore

  function AbsInt(n: int): int { if n < 0 then -n else n }

  /** C++ integer division: truncation toward zero. */
  function TruncDiv(n: int, d: int): int
    requires d != 0
  {
    if (n >= 0) == (d > 0) then AbsInt(n) / AbsInt(d) else -(AbsInt(n) / AbsInt(d))
  }

  function TruncMod(n: int, d: int): int
    requires d != 0
  {
    if n >= 0 then n % AbsInt(d) else -(-n % AbsInt(d))
  }

  /** Division as C++ has it: the quotient is cut off toward zero, so the remainder is smaller than
      the divisor and has the dividend's sign. */
  lemma TruncatedLaw(n: int, d: int)
    requires d != 0
    ensures n == d * TruncDiv(n, d) + TruncMod(n, d) && AbsInt(TruncMod(n, d)) < AbsInt(d)
    ensures TruncMod(n, d) == 0 || (TruncMod(n, d) < 0 <==> n < 0)
  {
    var m, e := AbsInt(n), AbsInt(d);
    var q := m / e;
    assert m == e * q + m % e;
    assert d * q == if d > 0 then e * q else -(e * q);
    assert d * -q == -(d * q);
  }

  lemma DivIsUnique(n: int, d: int, q: int, r: int)
    requires d > 0 && n == d * q + r && 0 <= r < d
    ensures q == n / d && r == n % d
  {
    var q', r' := n / d, n % d;
    assert n == d * q' + r';
    assert d * (q - q') == r' - r;
    if q - q' >= 1 {
      MulLe(d, d, 1, q - q');
    } else if q' - q >= 1 {
      MulLe(d, d, 1, q' - q);
    }
  }

  lemma ProductAlgebra(p: int, v: int, limb: int, carry: int, cur: int, low: int, high: int, done: int, todo: int)
    requires cur == limb * v + carry && cur == low + BASE * high
    requires done + p * carry == v * todo
    ensures done + p * low + (BASE * p) * high == v * (todo + p * limb)
  {
    calc {
      p * low + (BASE * p) * high;
      { assert (BASE * p) * high == p * (BASE * high); }
      p * (low + BASE * high);
      p * (limb * v + carry);
      p * (limb * v) + p * carry;
      { MulAssoc(p, limb, v); }
      (p * limb) * v + p * carry;
    }
    assert v * (todo + p * limb) == v * todo + v * (p * limb);
  }

  /** Writing `cur`'s low digit and carrying the rest keeps the running product. */
  lemma ProductStep(a: seq<int>, x: seq<int>, i: nat, v: int, carry: int, low: int, high: int)
    requires i < |a| && a[i] == Limb(x, i)
    requires a[i] * v + carry == low + BASE * high
    requires Eval(a[..i], BASE) + Pow(BASE, i) * carry == v * Eval(Low(x, i), BASE)
    ensures Eval(a[i := low][..i + 1], BASE) + Pow(BASE, i + 1) * high == v * Eval(Low(x, i + 1), BASE)
  {
    ProductAlgebra(Pow(BASE, i), v, a[i], carry, a[i] * v + carry, low, high, Eval(a[..i], BASE), Eval(Low(x, i), BASE));
    assert Eval(a[i := low][..i + 1], BASE) == Eval(a[..i], BASE) + Pow(BASE, i) * low by {
      EvalPrefixStep(a[i := low], i, BASE);
      assert a[i := low][..i] == a[..i];
    }
    LowStep(x, i);
  }

  /** One limb of a product: the 64-bit product, its low limb and its 32-bit carry. */
  method MulStep(limb: int, v: int, carry: int) returns (low: int, high: int)
    requires 0 <= limb < BASE && 0 <= carry <= v <= INT_MAX
    ensures 0 <= low < BASE && 0 <= high <= v
    ensures limb * v + carry == low + BASE * high
    ensures limb == 0 ==> low + BASE * high == carry
  {
    var cur := limb * v + carry;
    MulLe(limb, BASE - 1, v, v);
    assert 0 <= cur <= BASE * v && cur <= LLONG_MAX;
    low, high := cur % BASE, cur / BASE;
  }

  /** The loop of `operator*=(int)` for a multiplier that is not negative.  Every product fits
      a `long long` and every carry an `int`. */
  method MulLimbs(x: seq<int>, v: int) returns (a: seq<int>)
    requires IsDigits(x, BASE) && 0 <= v <= INT_MAX
    ensures IsDigits(a, BASE) && Eval(a, BASE) == v * Eval(x, BASE)
    ensures |a| <= |x| + 2
  {
    a := x;
    var i, carry := 0, 0;
    while i < |a| || carry != 0
      invariant 0 <= i <= |a| && 0 <= carry <= INT_MAX && carry <= v
      invariant |x| <= |a| && (|a| == |x| || i == |a|)
      invariant |a| > |x| ==> |a| <= |x| + 2 && (|a| == |x| + 1 ==> carry <= 2) && (|a| == |x| + 2 ==> carry == 0)
      invariant IsDigits(a, BASE)
      invariant forall j :: i <= j < |a| ==> a[j] == x[j]
      invariant Eval(a[..i], BASE) + Pow(BASE, i) * carry == v * Eval(Low(x, i), BASE)
      decreases |x| + 2 - i
    {
      if i == |a| {
        assert (a + [0])[..i] == a[..i];
        a := a + [0];
      }
      var low, high := MulStep(a[i], v, carry);
      ProductStep(a, x, i, v, carry, low, high);
      carry := high;
      a := a[i := low];
      i := i + 1;
    }
    assert a[..i] == a && Low(x, i) == x;
  }

  lemma SignedProduct(x: BigInt, y: BigInt, v: int)
    requires Signed(x) && y.sign == (if v < 0 then -x.sign else x.sign)
    requires Mag(y) == AbsInt(v) * Mag(x)
    ensures Signed(y) && Value(y) == Value(x) * v
  {
    var m := Mag(x);
    if x.sign == 1 {
      assert Value(x) == m;
      if v < 0 {
        assert Value(y) == -((-v) * m) == m * v;
      }
    } else {
      assert Value(x) == -m;
      if v < 0 {
        assert Value(y) == (-v) * m == (-m) * v;
      } else {
        assert Value(y) == -(v * m) == (-m) * v;
      }
    }
  }

  /** `operator*=(int)` and `operator*(int)`. */
  method MulSmall(x: BigInt, v: int) returns (r: BigInt)
    requires Signed(x) && IsDigits(x.a, BASE)
    requires -INT_MAX <= v <= INT_MAX
    ensures Canonical(r) && Value(r) == Value(x) * v
    ensures |r.a| <= |x.a| + 2
  {
    var a := MulLimbs(x.a, AbsInt(v));
    var y := BigInt(if v < 0 then -x.sign else x.sign, a);
    SignedProduct(x, y, v);
    r := Trim(y);
  }

  /** Schoolbook division of `x` by `v`: the quotient limbs and the remainder. */
  function DivTop(x: seq<int>, v: int): (seq<int>, int)
    requires v > 0
  {
    if x == [] then ([], 0)
    else
      var (q, rem) := DivTop(x[1..], v);
      var cur := x[0] + rem * BASE;
      ([cur / v] + q, cur % v)
  }

  /** Storing the next quotient digit in place. */
  lemma DivTopStep(x: seq<int>, q: seq<int>, i: nat, v: int, rem: int, d: int, rem': int)
    requires v > 0 && i < |x| == |q|
    requires (q[i + 1..], rem) == DivTop(x[i + 1..], v)
    requires d == (x[i] + rem * BASE) / v && rem' == (x[i] + rem * BASE) % v
    ensures (q[i := d][i..], rem') == DivTop(x[i..], v)
  {
    assert x[i..][1..] == x[i + 1..];
    assert q[i := d][i..] == [d] + q[i + 1..];
  }

  /** One limb: the quotient digit is a limb, and for an `int` divisor the dividend fits a
      `long long`. */
  lemma QuotientDigit(limb: int, rem: int, v: int)
    requires 0 < v && 0 <= rem < v && 0 <= limb < BASE
    ensures var cur := limb + rem * BASE;
            (v <= INT_MAX ==> cur <= LLONG_MAX) && 0 <= cur / v < BASE && 0 <= cur % v < v && cur == v * (cur / v) + cur % v
  {
    var cur := limb + rem * BASE;
    QuotientRange(cur, v, cur / v, cur % v);
  }

  lemma QuotientRange(n: int, v: int, q: int, rem: int)
    requires 0 < v && n == v * q + rem && 0 <= rem < v && 0 <= n < v * BASE
    ensures 0 <= q < BASE
  {
    if q >= BASE {
      MulLe(v, v, BASE, q);
    } else if q < 0 {
      MulLe(v, v, 1, -q);
    }
  }

  lemma {:induction false} DivTopIsDivision(x: seq<int>, v: int)
    requires IsDigits(x, BASE) && 0 < v
    ensures var (q, rem) := DivTop(x, v);
            IsDigits(q, BASE) && |q| == |x| && 0 <= rem < v && Eval(x, BASE) == v * Eval(q, BASE) + rem
  {
    if x != [] {
      DivTopIsDivision(x[1..], v);
      var (q, rem) := DivTop(x[1..], v);
      QuotientDigit(x[0], rem, v);
      var d, rem' := (x[0] + rem * BASE) / v, (x[0] + rem * BASE) % v;
      QuotientStep(x, q, v, rem, d, rem');
    }
  }

  lemma QuotientAlgebra(b: int, v: int, limb: int, high: int, rem: int, d: int, e: int, rem': int)
    requires limb + rem * b == v * d + rem' && high == v * e + rem
    ensures limb + b * high == v * (d + b * e) + rem'
  {
    calc {
      limb + b * high;
      limb + b * (v * e + rem);
      { assert b * (v * e + rem) == b * (v * e) + rem * b; }
      limb + rem * b + b * (v * e);
      { assert b * (v * e) == v * (b * e); }
      v * d + v * (b * e) + rem';
      v * (d + b * e) + rem';
    }
  }

  lemma QuotientStep(x: seq<int>, q: seq<int>, v: int, rem: int, d: int, rem': int)
    requires x != [] && x[0] + rem * BASE == v * d + rem'
    requires Eval(x[1..], BASE) == v * Eval(q, BASE) + rem
    ensures Eval(x, BASE) == v * Eval([d] + q, BASE) + rem'
  {
    QuotientAlgebra(BASE, v, x[0], Eval(x[1..], BASE), rem, d, Eval(q, BASE), rem');
    assert ([d] + q)[1..] == q;
  }

  /** The loop of `operator/=(int)`, from the most significant limb down. */
  method DivLimbs(x: seq<int>, v: int) returns (a: seq<int>, rem: int)
    requires v > 0
    ensures (a, rem) == DivTop(x, v)
  {
    a := x;
    var i := |a| - 1;
    rem := 0;
    while i >= 0
      invariant -1 <= i < |a| == |x|
      invariant forall j :: 0 <= j <= i ==> a[j] == x[j]
      invariant (a[i + 1..], rem) == DivTop(x[i + 1..], v)
    {
      var cur := a[i] + rem * BASE;
      DivTopStep(x, a, i, v, rem, cur / v, cur % v);
      a := a[i := cur / v];
      rem := cur % v;
      i := i - 1;
    }
    assert x[0..] == x && a[0..] == a;
  }

  /** `operator/=(int)`. */
  method DivSmall(x: BigInt, v: int) returns (r: BigInt)
    requires Signed(x) && IsDigits(x.a, BASE)
    requires -INT_MAX <= v <= INT_MAX && v != 0
    ensures Canonical(r) && Value(r) == TruncDiv(Value(x), v)
    ensures |r.a| <= |x.a|
  {
    var a, rem := DivLimbs(x.a, AbsInt(v));
    DivTopIsDivision(x.a, AbsInt(v));
    var y := BigInt(if v < 0 then -x.sign else x.sign, a);
    SignedQuotient(x, y, v, rem);
    r := Trim(y);
  }

  lemma SignedQuotient(x: BigInt, y: BigInt, v: int, rem: int)
    requires Signed(x) && IsDigits(x.a, BASE) && IsDigits(y.a, BASE) && v != 0
    requires y.sign == if v < 0 then -x.sign else x.sign
    requires Mag(x) == AbsInt(v) * Mag(y) + rem && 0 <= rem < AbsInt(v)
    ensures Value(y) == TruncDiv(Value(x), v)
  {
    DivIsUnique(Mag(x), AbsInt(v), Mag(y), rem);
    MagNonNegative(x);
    if Mag(x) == 0 {
      DivIsUnique(0, AbsInt(v), 0, 0);
    }
  }

  lemma SignedRemainder(x: BigInt, v: int, q: int, rem: int)
    requires Signed(x) && IsDigits(x.a, BASE) && v != 0
    requires Mag(x) == AbsInt(v) * q + rem && 0 <= rem < AbsInt(v)
    ensures rem * x.sign == TruncMod(Value(x), v)
  {
    DivIsUnique(Mag(x), AbsInt(v), q, rem);
    MagNonNegative(x);
    if Mag(x) == 0 {
      DivIsUnique(0, AbsInt(v), 0, 0);
    }
  }

  lemma NothingDivided(v: int)
    requires v > 0
    ensures DivTop([], v) == ([], 0)
  {
  }

  lemma RemainderStep(x: seq<int>, i: nat, v: int)
    requires i < |x| && v > 0
    ensures DivTop(x[i..], v).1 == (x[i] + DivTop(x[i + 1..], v).1 * BASE) % v
  {
    assert x[i..][1..] == x[i + 1..];
  }

  lemma LimbRemainder(x: BigInt, v: int)
    requires Signed(x) && IsDigits(x.a, BASE) && v != 0
    ensures DivTop(x.a, AbsInt(v)).1 * x.sign == TruncMod(Value(x), v)
  {
    DivTopIsDivision(x.a, AbsInt(v));
    var (q, rem) := DivTop(x.a, AbsInt(v));
    hide Eval, DivTop, TruncMod, AbsInt, Value;
    SignedRemainder(x, v, Eval(q, BASE), rem);
  }

  /** The loop of `operator%(int)` on the magnitude. */
  method ModLimbs(x: seq<int>, d: int) returns (m: int)
    requires d > 0
    ensures m == DivTop(x, d).1
  {
    m := 0;
    var i := |x| - 1;
    NothingDivided(d);
    assert x[i + 1..] == [];
    hide DivTop;
    while i >= 0
      invariant -1 <= i < |x| && m == DivTop(x[i + 1..], d).1
    {
      RemainderStep(x, i, d);
      m := (x[i] + m * BASE) % d;
      i := i - 1;
    }
    assert x[0..] == x;
  }

  /** `operator%(int)`: the remainder has the dividend's sign. */
  method ModSmall(x: BigInt, v: int) returns (m: int)
    requires Signed(x) && IsDigits(x.a, BASE)
    requires -INT_MAX <= v <= INT_MAX && v != 0
    ensures m == TruncMod(Value(x), v)
  {
    m := ModLimbs(x.a, AbsInt(v));
    LimbRemainder(x, v);
    hide Value, TruncMod, AbsInt, DivTop;
    m := m * x.sign;
  }
}
