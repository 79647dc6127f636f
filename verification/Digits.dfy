/** Powers and positional number systems: little-endian digit sequences and the integers
    they denote.  Everything the big-integer modules need to know about a limb vector is here. */
module Digits {

  function Pow(b: int, e: nat): int {
    if e == 0 then 1 else b * Pow(b, e - 1)
  }

  lemma {:induction false} PowAdd(b: int, m: nat, n: nat)
    ensures Pow(b, m + n) == Pow(b, m) * Pow(b, n)
  {
    if m == 0 {
    } else {
      PowAdd(b, m - 1, n);
      calc {
        Pow(b, m + n);
        b * Pow(b, m - 1 + n);
        b * (Pow(b, m - 1) * Pow(b, n));
        { MulAssoc(b, Pow(b, m - 1), Pow(b, n)); }
        Pow(b, m) * Pow(b, n);
      }
    }
  }

  lemma MulAssoc(x: int, y: int, z: int)
    ensures x * (y * z) == (x * y) * z
  {
  }

  lemma {:induction false} PowPositive(b: int, e: nat)
    requires b >= 1
    ensures Pow(b, e) >= 1
  {
    if e > 0 {
      PowPositive(b, e - 1);
      MulLe(1, b, 1, Pow(b, e - 1));
    }
  }

  lemma MulLe(x: int, x': int, y: int, y': int)
    requires 0 <= x <= x' && 0 <= y <= y'
    ensures x * y <= x' * y'
  {
    assert x * y <= x * y';
    assert x * y' <= x' * y';
  }

  lemma {:induction false} PowMono(b: int, m: nat, n: nat)
    requires b >= 1 && m <= n
    ensures Pow(b, m) <= Pow(b, n)
  {
    PowAdd(b, m, n - m);
    PowPositive(b, m);
    PowPositive(b, n - m);
    MulLe(Pow(b, m), Pow(b, m), 1, Pow(b, n - m));
  }

  /** The integer denoted by little-endian digits `s` in base `b`; digits may be any integers. */
  function Eval(s: seq<int>, b: int): int {
    if s == [] then 0 else s[0] + b * Eval(s[1..], b)
  }

  predicate IsDigits(s: seq<int>, b: int) {
    forall i :: 0 <= i < |s| ==> 0 <= s[i] < b
  }

  /** No leading (most significant) zero. */
  predicate NoLeadingZero(s: seq<int>) {
    |s| > 0 ==> s[|s| - 1] != 0
  }

  lemma {:induction false} EvalConcat(s: seq<int>, t: seq<int>, b: int)
    ensures Eval(s + t, b) == Eval(s, b) + Pow(b, |s|) * Eval(t, b)
  {
    if s == [] {
      assert s + t == t;
    } else {
      EvalConcat(s[1..], t, b);
      assert (s + t)[1..] == s[1..] + t;
      var p, e, f := Pow(b, |s| - 1), Eval(s[1..], b), Eval(t, b);
      assert b * (e + p * f) == b * e + (b * p) * f by { MulAssoc(b, p, f); }
    }
  }

  lemma EvalPush(s: seq<int>, d: int, b: int)
    ensures Eval(s + [d], b) == Eval(s, b) + Pow(b, |s|) * d
  {
    EvalConcat(s, [d], b);
    assert Eval([d], b) == d + b * Eval([], b);
  }

  /** Splitting off the digits below position `i`. */
  lemma EvalSplit(s: seq<int>, i: nat, b: int)
    requires i <= |s|
    ensures Eval(s, b) == Eval(s[..i], b) + Pow(b, i) * Eval(s[i..], b)
  {
    assert s == s[..i] + s[i..];
    EvalConcat(s[..i], s[i..], b);
  }

  lemma EvalPrefixStep(s: seq<int>, i: nat, b: int)
    requires i < |s|
    ensures Eval(s[..i + 1], b) == Eval(s[..i], b) + Pow(b, i) * s[i]
  {
    assert s[..i + 1] == s[..i] + [s[i]];
    EvalPush(s[..i], s[i], b);
  }

  lemma EvalUpdate(s: seq<int>, i: nat, d: int, b: int)
    requires i < |s|
    ensures Eval(s[i := d], b) == Eval(s, b) + Pow(b, i) * (d - s[i])
  {
    var t := s[i := d];
    EvalSplit(s, i, b);
    EvalSplit(t, i, b);
    assert s[..i] == t[..i] && s[i..][1..] == t[i..][1..];
    var p, f := Pow(b, i), b * Eval(s[i..][1..], b);
    assert p * (d + f) == p * (s[i] + f) + p * (d - s[i]);
  }

  lemma {:induction false} EvalBound(s: seq<int>, b: int)
    requires b >= 1 && IsDigits(s, b)
    ensures 0 <= Eval(s, b) < Pow(b, |s|)
  {
    if s != [] {
      EvalBound(s[1..], b);
      MulLe(b, b, Eval(s[1..], b), Pow(b, |s| - 1) - 1);
      assert b * (Pow(b, |s| - 1) - 1) == Pow(b, |s|) - b;
      MulLe(0, b, 0, Eval(s[1..], b));
    }
  }

  lemma {:induction false} EvalZeros(s: seq<int>, b: int)
    requires forall i :: 0 <= i < |s| ==> s[i] == 0
    ensures Eval(s, b) == 0
  {
    if s != [] {
      EvalZeros(s[1..], b);
    }
  }

  /** The top digit brackets the value. */
  lemma TopDigit(s: seq<int>, b: int)
    requires b >= 1 && IsDigits(s, b) && s != []
    ensures s[|s| - 1] * Pow(b, |s| - 1) <= Eval(s, b) < (s[|s| - 1] + 1) * Pow(b, |s| - 1)
  {
    var n := |s| - 1;
    EvalPrefixStep(s, n, b);
    assert s[..n + 1] == s;
    EvalBound(s[..n], b);
  }

  /** A digit vector has no leading zero exactly when its value needs all its positions. */
  lemma LeadingZeroByValue(s: seq<int>, b: int)
    requires b >= 1 && IsDigits(s, b) && s != []
    ensures s[|s| - 1] != 0 <==> Eval(s, b) >= Pow(b, |s| - 1)
  {
    TopDigit(s, b);
    var p, d := Pow(b, |s| - 1), s[|s| - 1];
    if d >= 1 {
      PowPositive(b, |s| - 1);
      MulLe(1, d, p, p);
    }
  }

  /** Longer trimmed vectors denote larger numbers. */
  lemma LengthOrders(s: seq<int>, t: seq<int>, b: int)
    requires b >= 1 && IsDigits(s, b) && IsDigits(t, b) && NoLeadingZero(t)
    requires |s| < |t|
    ensures Eval(s, b) < Eval(t, b)
  {
    EvalBound(s, b);
    LeadingZeroByValue(t, b);
    PowMono(b, |s|, |t| - 1);
  }

  /** The highest differing digit decides. */
  lemma DigitOrders(s: seq<int>, t: seq<int>, i: nat, b: int)
    requires b >= 1 && IsDigits(s, b) && IsDigits(t, b)
    requires i < |s| == |t| && s[i + 1..] == t[i + 1..] && s[i] < t[i]
    ensures Eval(s, b) < Eval(t, b)
  {
    EvalSplit(s, i + 1, b);
    EvalSplit(t, i + 1, b);
    TopDigit(s[..i + 1], b);
    TopDigit(t[..i + 1], b);
    PowPositive(b, i);
    MulLe(s[i] + 1, t[i], Pow(b, i), Pow(b, i));
  }

  /** A number has one trimmed representation. */
  lemma {:induction false} EvalInjective(s: seq<int>, t: seq<int>, b: int)
    requires b >= 1 && IsDigits(s, b) && IsDigits(t, b) && NoLeadingZero(s) && NoLeadingZero(t)
    requires Eval(s, b) == Eval(t, b)
    ensures s == t
  {
    if |s| < |t| {
      LengthOrders(s, t, b);
    } else if |t| < |s| {
      LengthOrders(t, s, b);
    } else {
      SameLengthInjective(s, t, b);
    }
  }

  lemma {:induction false} SameLengthInjective(s: seq<int>, t: seq<int>, b: int)
    requires b >= 1 && IsDigits(s, b) && IsDigits(t, b) && |s| == |t|
    requires Eval(s, b) == Eval(t, b)
    ensures s == t
  {
    if s != [] {
      var n := |s| - 1;
      assert s[n] == t[n] by {
        assert s[n + 1..] == [] == t[n + 1..];
        if s[n] < t[n] {
          DigitOrders(s, t, n, b);
        } else if t[n] < s[n] {
          DigitOrders(t, s, n, b);
        }
      }
      assert s[..n] == t[..n] by {
        EvalPrefixStep(s, n, b);
        EvalPrefixStep(t, n, b);
        assert s[..n + 1] == s && t[..n + 1] == t;
        SameLengthInjective(s[..n], t[..n], b);
      }
      assert s == s[..n] + [s[n]] && t == t[..n] + [t[n]];
    }
  }

  lemma DivShrinks(n: int, b: int)
    requires n > 0 && b >= 2
    ensures 0 <= n / b < n && n == b * (n / b) + n % b && 0 <= n % b < b
  {
    var q := n / b;
    if q >= 1 {
      MulLe(2, b, q, q);
    }
  }

  /** The digits of a natural number. */
  function DigitsOf(n: nat, b: int): seq<int>
    requires b >= 2
    decreases n
  {
    if n == 0 then [] else
      DivShrinks(n, b);
      [n % b] + DigitsOf(n / b, b)
  }

  lemma DigitsOfStep(n: nat, b: int)
    requires b >= 2 && n > 0
    ensures n / b >= 0 && DigitsOf(n, b) == [n % b] + DigitsOf(n / b, b)
  {
    DivShrinks(n, b);
  }

  lemma {:induction false} DigitsOfValue(n: nat, b: int)
    requires b >= 2
    ensures IsDigits(DigitsOf(n, b), b) && NoLeadingZero(DigitsOf(n, b)) && Eval(DigitsOf(n, b), b) == n
    ensures DigitsOf(n, b) == [] <==> n == 0
    ensures n < b ==> |DigitsOf(n, b)| <= 1
    decreases n
  {
    if n > 0 {
      DivShrinks(n, b);
      var s, t := DigitsOf(n, b), DigitsOf(n / b, b);
      DigitsOfValue(n / b, b);
      assert s == [n % b] + t && s[1..] == t;
      if n < b && n / b >= 1 {
        MulLe(b, b, 1, n / b);
      }
    }
  }
}
