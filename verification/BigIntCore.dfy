/** The arbitrary-precision integer of StateDatabase/bigint.h: representation, trimming,
    comparison, addition and subtraction.  The C++ struct is copied by value everywhere, so
    it is a datatype here and each mutating loop is a method from the old value to the new. */
module BigIntCore {
  import opened Wrappers
  import opened Digits

  const BASE: int := 1_000_000_000
  const SIZE_T: int := 0x1_0000_0000_0000_0000
  const LLONG_MAX: int := 0x7fff_ffff_ffff_ffff

  datatype BigInt = BigInt(sign: int, a: seq<int>)

  function Mag(x: BigInt): int { Eval(x.a, BASE) }

  /** The integer a representation stands for. */
  function Value(x: BigInt): int { x.sign * Mag(x) }

  predicate Signed(x: BigInt) { x.sign == 1 || x.sign == -1 }

  /** Limbs in range, no leading zero limb.  A negated zero is still well formed. */
  predicate WellFormed(x: BigInt) {
    Signed(x) && IsDigits(x.a, BASE) && NoLeadingZero(x.a)
  }

  predicate NegativeZero(x: BigInt) { x.a == [] && x.sign == -1 }

  /** What `trim` enforces: well formed, and zero is +0. */
  predicate Canonical(x: BigInt) { WellFormed(x) && !NegativeZero(x) }

  const Zero: BigInt := BigInt(1, [])

  lemma MagNonNegative(x: BigInt)
    requires IsDigits(x.a, BASE)
    ensures Mag(x) >= 0
  {
    EvalBound(x.a, BASE);
  }

  lemma MagZero(x: BigInt)
    requires WellFormed(x)
    ensures Mag(x) >= 0
    ensures Mag(x) == 0 <==> x.a == []
  {
    EvalBound(x.a, BASE);
    if x.a != [] {
      LeadingZeroByValue(x.a, BASE);
      PowPositive(BASE, |x.a| - 1);
    }
  }

  /** Equal integers have equal canonical representations. */
  lemma CanonicalUnique(x: BigInt, y: BigInt)
    requires Canonical(x) && Canonical(y) && Value(x) == Value(y)
    ensures x == y
  {
    MagZero(x);
    MagZero(y);
    EvalInjective(x.a, y.a, BASE);
  }

  /** `trim`: the value stays, and proper limbs become canonical. */
  method Trim(x: BigInt) returns (r: BigInt)
    requires Signed(x)
    ensures Signed(r) && NoLeadingZero(r.a) && Value(r) == Value(x) && (IsDigits(x.a, BASE) ==> Canonical(r))
    ensures r.sign == x.sign || r == Zero
    ensures |r.a| <= |x.a|
  {
    var a := x.a;
    while a != [] && a[|a| - 1] == 0
      invariant (IsDigits(x.a, BASE) ==> IsDigits(a, BASE)) && Eval(a, BASE) == Mag(x)
      invariant |a| <= |x.a|
      decreases |a|
    {
      EvalPrefixStep(a, |a| - 1, BASE);
      assert a[..|a| - 1 + 1] == a;
      a := a[..|a| - 1];
    }
    r := BigInt(if a == [] then 1 else x.sign, a);
  }

  method NatLimbs(n: nat) returns (a: seq<int>)
    ensures a == DigitsOf(n, BASE)
  {
    a := [];
    var m := n;
    while m > 0
      invariant m >= 0 && a + DigitsOf(m, BASE) == DigitsOf(n, BASE)
    {
      DigitsOfStep(m, BASE);
      assert a + ([m % BASE] + DigitsOf(m / BASE, BASE)) == (a + [m % BASE]) + DigitsOf(m / BASE, BASE);
      a := a + [m % BASE];
      m := m / BASE;
    }
  }

  /** `operator=(long long)`, for every value but the most negative one. */
  method FromInt(v: int) returns (r: BigInt)
    requires -0x8000_0000_0000_0000 < v < 0x8000_0000_0000_0000
    ensures Canonical(r) && Value(r) == v
    ensures -BASE < v < BASE ==> |r.a| <= 1
  {
    var sign, m := 1, v;
    if v < 0 {
      sign, m := -1, -v;
    }
    var a := NatLimbs(m);
    DigitsOfValue(m, BASE);
    r := BigInt(sign, a);
  }

  function Negate(x: BigInt): BigInt { BigInt(-x.sign, x.a) }

  function Abs(x: BigInt): BigInt { BigInt(x.sign * x.sign, x.a) }

  function IsZero(x: BigInt): bool {
    x.a == [] || (|x.a| == 1 && x.a[0] == 0)
  }

  /** A limb count times an `int` sign, in the arithmetic of `size_t`. */
  function SizeTimesSign(n: nat, sign: int): int { (n * sign) % SIZE_T }

  /** The operand pairs, among all well formed ones, on which `operator<` is not integer order. */
  predicate Misordered(x: BigInt, y: BigInt) {
    || (NegativeZero(x) && (y == Zero || (y.sign == -1 && y.a != [])))
    || (NegativeZero(y) && x.sign == -1 && x.a != [])
  }

  lemma SizesInOrder(m: nat, n: nat, sign: int)
    requires sign == 1 || sign == -1
    requires m < SIZE_T && n < SIZE_T && m != n
    ensures SizeTimesSign(m, sign) < SizeTimesSign(n, sign) <==>
            if sign == 1 then m < n else n != 0 && (m == 0 || n < m)
  {
    if sign == -1 {
      assert m > 0 ==> SizeTimesSign(m, -1) == SIZE_T - m;
      assert n > 0 ==> SizeTimesSign(n, -1) == SIZE_T - n;
    }
  }

  lemma OrderBySize(x: BigInt, y: BigInt)
    requires WellFormed(x) && WellFormed(y) && x.sign == y.sign
    requires |x.a| < SIZE_T && |y.a| < SIZE_T && |x.a| != |y.a|
    ensures ((SizeTimesSign(|x.a|, x.sign) < SizeTimesSign(|y.a|, y.sign)) == (Value(x) < Value(y)))
            <==> !Misordered(x, y)
  {
    MagZero(x);
    MagZero(y);
    SizesInOrder(|x.a|, |y.a|, x.sign);
    if |x.a| < |y.a| {
      LengthOrders(x.a, y.a, BASE);
    } else {
      LengthOrders(y.a, x.a, BASE);
    }
  }

  lemma OrderBySign(x: BigInt, y: BigInt)
    requires WellFormed(x) && WellFormed(y) && x.sign != y.sign
    ensures ((x.sign < y.sign) == (Value(x) < Value(y))) <==> !Misordered(x, y)
  {
    MagZero(x);
    MagZero(y);
  }

  lemma OrderByLimb(x: BigInt, y: BigInt, i: nat)
    requires WellFormed(x) && WellFormed(y) && x.sign == y.sign
    requires i < |x.a| == |y.a| && x.a[i + 1..] == y.a[i + 1..] && x.a[i] != y.a[i]
    ensures (x.a[i] * x.sign < y.a[i] * y.sign) == (Value(x) < Value(y))
  {
    if x.a[i] < y.a[i] {
      DigitOrders(x.a, y.a, i, BASE);
    } else {
      DigitOrders(y.a, x.a, i, BASE);
    }
  }

  /** The limb loop of `operator<`, from the most significant limb down. */
  method LessLimbs(x: BigInt, y: BigInt) returns (less: bool)
    requires WellFormed(x) && WellFormed(y) && x.sign == y.sign && |x.a| == |y.a|
    ensures less == (Value(x) < Value(y))
  {
    hide Value, Mag, WellFormed;
    var i := |x.a| - 1;
    while i >= 0
      invariant -1 <= i < |x.a|
      invariant x.a[i + 1..] == y.a[i + 1..]
    {
      if x.a[i] != y.a[i] {
        OrderByLimb(x, y, i);
        return x.a[i] * x.sign < y.a[i] * y.sign;
      }
      assert x.a[i..] == [x.a[i]] + x.a[i + 1..];
      assert y.a[i..] == [y.a[i]] + y.a[i + 1..];
      i := i - 1;
    }
    assert x.a[0..] == x.a && y.a[0..] == y.a;
    return false;
  }

  /** `operator<`: integer order exactly on the pairs that are not `Misordered`, so on all
      canonical operands, although limb counts are compared after unsigned wrap-around. */
  method Less(x: BigInt, y: BigInt) returns (less: bool)
    requires WellFormed(x) && WellFormed(y)
    requires |x.a| <= INT_MAX && |y.a| <= INT_MAX
    ensures (less == (Value(x) < Value(y))) <==> !Misordered(x, y)
  {
    if x.sign != y.sign {
      OrderBySign(x, y);
      less := x.sign < y.sign;
    } else if |x.a| != |y.a| {
      OrderBySize(x, y);
      less := SizeTimesSign(|x.a|, x.sign) < SizeTimesSign(|y.a|, y.sign);
    } else {
      less := LessLimbs(x, y);
    }
  }

  /** `operator==`, through two comparisons: identity of representations, and so equality of
      values unless zero meets negative zero. */
  method Equal(x: BigInt, y: BigInt) returns (equal: bool)
    requires WellFormed(x) && WellFormed(y)
    requires |x.a| <= INT_MAX && |y.a| <= INT_MAX
    ensures equal <==> x == y
    ensures (equal <==> Value(x) == Value(y)) <==> x.a != [] || y.a != [] || x.sign == y.sign
  {
    var xy := Less(x, y);
    var yx := Less(y, x);
    MagZero(x);
    MagZero(y);
    if Value(x) == Value(y) && (x.a != [] || y.a != []) {
      CanonicalUnique(x, y);
    }
    equal := !xy && !yx;
  }

  /** The failing comparison: unary minus of zero is below zero, though both are zero. */
  method NegatedZeroIsLess() returns (less: bool)
    ensures less && Value(Negate(Zero)) == Value(Zero) && Misordered(Negate(Zero), Zero)
  {
    less := Less(Negate(Zero), Zero);
  }

  function Limb(a: seq<int>, i: nat): int { if i < |a| then a[i] else 0 }

  function Max(m: int, n: int): int { if m < n then n else m }

  /** The limbs of `a` below position `i`. */
  function Low(a: seq<int>, i: nat): seq<int> { if i < |a| then a[..i] else a }

  lemma LowStep(a: seq<int>, i: nat)
    ensures Eval(Low(a, i + 1), BASE) == Eval(Low(a, i), BASE) + Pow(BASE, i) * Limb(a, i)
  {
    if i < |a| {
      EvalPrefixStep(a, i, BASE);
      assert a[..|a|] == a;
    }
  }

  /** Rewriting limb `i` to `d` and passing `next` on keeps the running total, when the
      limb-level equation does.  `sgn` is +1 for carries and -1 for borrows. */
  lemma CarryStep(r: seq<int>, i: nat, d: int, sgn: int, carry: int, next: int, limb: int)
    requires i < |r| && (sgn == 1 || sgn == -1)
    requires d + sgn * (BASE * next) == r[i] + sgn * (carry + limb)
    ensures Eval(r[i := d], BASE) + sgn * (Pow(BASE, i + 1) * next) ==
            Eval(r, BASE) + sgn * (Pow(BASE, i) * carry) + sgn * (Pow(BASE, i) * limb)
  {
    EvalUpdate(r, i, d, BASE);
    var p := Pow(BASE, i);
    MulAssoc(p, BASE, next);
    if sgn == 1 {
      assert p * (d - r[i]) + p * (BASE * next) == p * (carry + limb);
    } else {
      assert p * (d - r[i]) - p * (BASE * next) == p * (-carry - limb);
    }
  }

  /** The carry loop of `operator+`: adds `x` into a copy of `y`. */
  method AddLimbs(x: seq<int>, y: seq<int>) returns (r: seq<int>)
    requires IsDigits(x, BASE) && NoLeadingZero(x)
    requires IsDigits(y, BASE) && NoLeadingZero(y)
    ensures IsDigits(r, BASE) && NoLeadingZero(r)
    ensures Eval(r, BASE) == Eval(x, BASE) + Eval(y, BASE)
    ensures |r| <= Max(|x|, |y|) + 1
  {
    r := y;
    var i, carry := 0, 0;
    var n := Max(|x|, |y|);
    while i < n || carry != 0
      invariant 0 <= i <= n + 1 && 0 <= carry <= 1
      invariant i <= n ==> |r| == Max(i, |y|)
      invariant i == n + 1 ==> carry == 0 && |r| == n + 1 && r[n] == 1
      invariant IsDigits(r, BASE)
      invariant forall j :: i <= j < |y| ==> r[j] == y[j]
      invariant Eval(r, BASE) + Pow(BASE, i) * carry == Eval(y, BASE) + Eval(Low(x, i), BASE)
      decreases n + 1 - i
    {
      if i == |r| {
        EvalPush(r, 0, BASE);
        r := r + [0];
      }
      var sum := r[i] + carry + Limb(x, i);
      assert sum <= 0x7fff_ffff;  // the limb vector is a vector of 32-bit ints
      var next := if sum >= BASE then 1 else 0;
      var d := if next == 1 then sum - BASE else sum;
      CarryStep(r, i, d, 1, carry, next, Limb(x, i));
      LowStep(x, i);
      r := r[i := d];
      carry := next;
      i := i + 1;
    }
    SumNeedsTop(x, y, r);
  }

  /** A sum at least as long as its longer trimmed summand, if no longer, has no leading zero. */
  lemma SumNeedsTop(x: seq<int>, y: seq<int>, r: seq<int>)
    requires IsDigits(x, BASE) && NoLeadingZero(x)
    requires IsDigits(y, BASE) && NoLeadingZero(y)
    requires IsDigits(r, BASE) && Eval(r, BASE) == Eval(x, BASE) + Eval(y, BASE)
    requires |r| == Max(|x|, |y|) || (|r| == Max(|x|, |y|) + 1 && r[|r| - 1] == 1)
    ensures NoLeadingZero(r)
  {
    if |r| == Max(|x|, |y|) && r != [] {
      EvalBound(x, BASE);
      EvalBound(y, BASE);
      LeadingZeroByValue(if |x| == |r| then x else y, BASE);
      LeadingZeroByValue(r, BASE);
    }
  }

  /** The borrow loop of `operator-`.  The borrow never runs past the last limb. */
  method SubLimbs(x: seq<int>, y: seq<int>) returns (r: seq<int>)
    requires IsDigits(x, BASE) && IsDigits(y, BASE)
    requires |y| <= |x| && Eval(x, BASE) >= Eval(y, BASE)
    ensures IsDigits(r, BASE) && |r| == |x|
    ensures Eval(r, BASE) == Eval(x, BASE) - Eval(y, BASE)
  {
    r := x;
    var i, carry := 0, 0;
    while i < |y| || carry != 0
      invariant 0 <= i <= |x| && 0 <= carry <= 1
      invariant |r| == |x| && IsDigits(r, BASE)
      invariant Eval(r, BASE) - Pow(BASE, i) * carry == Eval(x, BASE) - Eval(Low(y, i), BASE)
      decreases |x| - i
    {
      if i == |x| {
        // a borrow out of the top limb would make the difference negative
        EvalBound(r, BASE);
        assert false;
      }
      var diff := r[i] - carry - Limb(y, i);
      var next := if diff < 0 then 1 else 0;
      var d := if next == 1 then diff + BASE else diff;
      CarryStep(r, i, d, -1, carry, next, Limb(y, i));
      LowStep(y, i);
      r := r[i := d];
      carry := next;
      i := i + 1;
    }
  }

  lemma ShorterIfSmaller(x: seq<int>, y: seq<int>)
    requires IsDigits(x, BASE) && IsDigits(y, BASE) && NoLeadingZero(y)
    requires Eval(x, BASE) >= Eval(y, BASE)
    ensures |y| <= |x|
  {
    if |x| < |y| {
      LengthOrders(x, y, BASE);
    }
  }

  /** `operator+`. The only sum that is not canonical is -0 plus -0. */
  method Add(x: BigInt, y: BigInt) returns (r: BigInt)
    requires WellFormed(x) && WellFormed(y)
    requires |x.a| < INT_MAX && |y.a| < INT_MAX
    ensures WellFormed(r) && Value(r) == Value(x) + Value(y)
    ensures NegativeZero(r) <==> NegativeZero(x) && NegativeZero(y)
    ensures |r.a| <= Max(|x.a|, |y.a|) + 1
    decreases if x.sign == y.sign then 0 else 3
  {
    if x.sign == y.sign {
      MagZero(x);
      MagZero(y);
      var a := AddLimbs(x.a, y.a);
      r := BigInt(y.sign, a);
      MagZero(r);
    } else {
      r := Sub(x, Negate(y));
    }
  }

  /** `operator-`. The only difference that is not canonical is -0 minus +0. */
  method Sub(x: BigInt, y: BigInt) returns (r: BigInt)
    requires WellFormed(x) && WellFormed(y)
    requires |x.a| < INT_MAX && |y.a| < INT_MAX
    ensures WellFormed(r) && Value(r) == Value(x) - Value(y)
    ensures NegativeZero(r) <==> NegativeZero(x) && y == Zero
    ensures |r.a| <= Max(|x.a|, |y.a|) + 1
    decreases if x.sign != y.sign then 2 else if Mag(x) >= Mag(y) then 0 else 1
  {
    MagZero(x);
    MagZero(y);
    if x.sign == y.sign {
      var less := Less(Abs(x), Abs(y));
      if !less {
        ShorterIfSmaller(x.a, y.a);
        var a := SubLimbs(x.a, y.a);
        r := Trim(BigInt(x.sign, a));
      } else {
        var d := Sub(y, x);
        MagZero(d);
        r := Negate(d);
      }
    } else {
      r := Add(x, Negate(y));
    }
  }
}
