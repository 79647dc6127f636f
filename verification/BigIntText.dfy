/** Decimal input and output: `read` and `operator<<`. */
module BigIntText {
  import opened Digits
  import opened BigIntCore
  import BigIntMul

  predicate IsDigit(c: char) { '0' <= c <= '9' }

  predicate AllDigits(s: string) { forall i :: 0 <= i < |s| ==> IsDigit(s[i]) }

  function DigitValue(c: char): int { c as int - '0' as int }

  function DigitChar(d: int): char
    requires 0 <= d < 10
  {
    ('0' as int + d) as char
  }

  /** The value of a string of decimal digits. */
  function DecimalValue(s: string): int {
    if s == "" then 0 else DecimalValue(s[..|s| - 1]) * 10 + DigitValue(s[|s| - 1])
  }

  /** How a stream prints a natural number. */
  function Decimal(n: nat): string {
    if n < 10 then [DigitChar(n)] else Decimal(n / 10) + [DigitChar(n % 10)]
  }

  function SignedDecimal(n: int): string { if n < 0 then "-" + Decimal(-n) else Decimal(n) }

  /** The low `w` decimal digits of `n`, zeros included. */
  function Fixed(n: nat, w: nat): string {
    if w == 0 then "" else Fixed(n / 10, w - 1) + [DigitChar(n % 10)]
  }

  /** `setw(w) << setfill('0') << n`. */
  function ZeroFilled(n: nat, w: nat): string {
    var s := Decimal(n);
    if |s| < w then seq(w - |s|, _ => '0') + s else s
  }

  lemma {:induction false} FixedZero(w: nat)
    ensures Fixed(0, w) == seq(w, _ => '0')
  {
    if w > 0 {
      FixedZero(w - 1);
    }
  }

  lemma TenthBound(n: nat, w: nat)
    requires w > 0 && n < Pow(10, w)
    ensures n / 10 < Pow(10, w - 1)
  {
  }

  lemma {:induction false} ZeroFilledIsFixed(n: nat, w: nat)
    requires w > 0 && n < Pow(10, w)
    ensures |Decimal(n)| <= w && ZeroFilled(n, w) == Fixed(n, w)
    decreases w
  {
    if n < 10 {
      FixedZero(w - 1);
    } else {
      TenthBound(n, w);
      assert w > 1;
      ZeroFilledIsFixed(n / 10, w - 1);
    }
  }

  lemma TenShift(low: nat, p: nat)
    ensures (low + 10 * p) / 10 == low / 10 + p && (low + 10 * p) % 10 == low % 10
  {
  }

  /** A number split after its low `w` digits prints as its two parts, the low one zero filled. */
  lemma {:induction false} DecimalSplit(high: nat, low: nat, w: nat)
    requires high > 0 && low < Pow(10, w)
    ensures Decimal(low + Pow(10, w) * high) == Decimal(high) + Fixed(low, w)
    decreases w
  {
    if w > 0 {
      TenthBound(low, w);
      PowPositive(10, w - 1);
      var n, p := low + Pow(10, w) * high, Pow(10, w - 1) * high;
      assert p >= 1 by { MulLe(1, Pow(10, w - 1), 1, high); }
      assert n == low + 10 * p by { MulAssoc(10, Pow(10, w - 1), high); }
      TenShift(low, p);
      DecimalSplit(high, low / 10, w - 1);
      assert Decimal(high) + Fixed(low, w) == (Decimal(high) + Fixed(low / 10, w - 1)) + [DigitChar(low % 10)];
    }
  }

  lemma {:induction false} DecimalValueOf(n: nat)
    ensures AllDigits(Decimal(n)) && Decimal(n) != "" && DecimalValue(Decimal(n)) == n
  {
    var s := Decimal(n);
    if n < 10 {
      assert s[..|s| - 1] == "";
    } else {
      DecimalValueOf(n / 10);
      assert s[..|s| - 1] == Decimal(n / 10);
    }
  }

  lemma {:induction false} DecimalValueNonNegative(s: string)
    requires AllDigits(s)
    ensures 0 <= DecimalValue(s) < Pow(10, |s|)
  {
    if s != "" {
      DecimalValueNonNegative(s[..|s| - 1]);
    }
  }

  /** Among all digit strings of a value, the printed one is the only one as short as it is. */
  lemma {:induction false} DecimalIsShortest(t: string)
    requires AllDigits(t) && t != ""
    ensures DecimalValue(t) >= 0
    ensures |Decimal(DecimalValue(t))| <= |t|
    ensures |Decimal(DecimalValue(t))| == |t| ==> Decimal(DecimalValue(t)) == t
  {
    DecimalValueNonNegative(t);
    var n, u := DecimalValue(t), t[..|t| - 1];
    DecimalValueNonNegative(u);
    assert n / 10 == DecimalValue(u) && n % 10 == DigitValue(t[|t| - 1]);
    assert t == u + [DigitChar(n % 10)];
    if |t| > 1 {
      DecimalIsShortest(u);
      if n < 10 {
        assert DecimalValue(u) == 0;
      }
    } else {
      assert u == "";
    }
  }

  lemma {:induction false} DecimalValueConcat(u: string, v: string)
    ensures DecimalValue(u + v) == DecimalValue(u) * Pow(10, |v|) + DecimalValue(v)
  {
    if v == "" {
      assert u + v == u;
    } else {
      var w := v[..|v| - 1];
      DecimalValueConcat(u, w);
      assert (u + v)[..|u + v| - 1] == u + w;
      ConcatAlgebra(DecimalValue(u), Pow(10, |w|), DecimalValue(w));
    }
  }

  lemma ConcatAlgebra(x: int, p: int, y: int)
    ensures (x * p + y) * 10 == x * (10 * p) + y * 10
  {
    assert x * (10 * p) == (x * p) * 10;
  }

  /** `operator<<`: the shortest decimal of the magnitude after the sign. */
  method Print(v: BigInt) returns (s: string)
    requires WellFormed(v)
    ensures Mag(v) >= 0 && s == (if v.sign == -1 then "-" else "") + Decimal(Mag(v))
  {
    MagZero(v);
    var sign := if v.sign == -1 then "-" else "";
    s := sign + Decimal(if v.a == [] then 0 else v.a[|v.a| - 1]);
    var i := |v.a| - 2;
    if v.a != [] {
      SingleLimb(v.a[i + 1..]);
    }
    while i >= 0
      invariant -1 <= i < |v.a| - 1 || (i == -2 && v.a == [])
      invariant v.a == [] ==> s == sign + Decimal(0)
      invariant v.a != [] ==> Eval(v.a[i + 1..], BASE) > 0 && s == sign + Decimal(Eval(v.a[i + 1..], BASE))
    {
      PrintStep(v.a, i);
      assert sign + Decimal(Eval(v.a[i + 1..], BASE)) + ZeroFilled(v.a[i], 9) ==
             sign + (Decimal(Eval(v.a[i + 1..], BASE)) + ZeroFilled(v.a[i], 9));
      s := s + ZeroFilled(v.a[i], 9);
      i := i - 1;
    }
    assert v.a != [] ==> v.a[i + 1..] == v.a;
  }

  lemma SingleLimb(a: seq<int>)
    requires |a| == 1
    ensures Eval(a, BASE) == a[0]
  {
    assert Eval(a[1..], BASE) == 0;
  }

  lemma PrintStep(a: seq<int>, i: nat)
    requires i + 1 < |a| && IsDigits(a, BASE) && Eval(a[i + 1..], BASE) > 0
    ensures Eval(a[i..], BASE) > 0
    ensures Decimal(Eval(a[i..], BASE)) == Decimal(Eval(a[i + 1..], BASE)) + ZeroFilled(a[i], 9)
  {
    BigIntMul.RadixValues();
    assert a[i..][1..] == a[i + 1..];
    ZeroFilledIsFixed(a[i], 9);
    DecimalSplit(Eval(a[i + 1..], BASE), a[i], 9);
  }

  // ----- reading -----

  predicate IsSign(c: char) { c == '-' || c == '+' }

  /** How many sign characters a string starts with. */
  function SignCount(s: string): nat {
    if s != "" && IsSign(s[0]) then 1 + SignCount(s[1..]) else 0
  }

  function SignOf(s: string): int {
    if s != "" && IsSign(s[0]) then (if s[0] == '-' then -SignOf(s[1..]) else SignOf(s[1..])) else 1
  }

  lemma {:induction false} SignCountBound(s: string)
    ensures SignCount(s) <= |s|
    ensures SignOf(s) == 1 || SignOf(s) == -1
  {
    if s != "" && IsSign(s[0]) {
      SignCountBound(s[1..]);
    }
  }

  /** The digits after the signs. */
  function Body(s: string): string {
    SignCountBound(s);
    s[SignCount(s)..]
  }

  /** Any number of signs followed by digits only. */
  predicate Numeral(s: string) { AllDigits(Body(s)) }

  function NumeralValue(s: string): int { SignOf(s) * DecimalValue(Body(s)) }

  /** The sign loop of `read`. */
  method ReadSigns(s: string) returns (pos: nat, sign: int)
    ensures pos == SignCount(s) <= |s| && sign == SignOf(s)
  {
    SignCountBound(s);
    pos, sign := 0, 1;
    while pos < |s| && IsSign(s[pos])
      invariant pos <= |s| && (sign == 1 || sign == -1)
      invariant pos + SignCount(s[pos..]) == SignCount(s) && sign * SignOf(s[pos..]) == SignOf(s)
    {
      assert s[pos..][1..] == s[pos + 1..];
      SignCountBound(s[pos + 1..]);
      if s[pos] == '-' {
        sign := -sign;
      }
      pos := pos + 1;
    }
    SignCountBound(s[pos..]);
  }

  /** The digit loop for one limb. */
  method ReadChunk(s: string, from: nat, to: nat) returns (x: int)
    requires from <= to <= |s|
    ensures x == DecimalValue(s[from..to])
  {
    x := 0;
    var j := from;
    while j < to
      invariant from <= j <= to && x == DecimalValue(s[from..j])
    {
      assert s[from..j + 1][..j - from] == s[from..j];
      x := x * 10 + DigitValue(s[j]);
      j := j + 1;
    }
  }

  lemma ChunkAlgebra(high: int, p: int, x: int, w: int, e: int)
    ensures (high * p + x) * w + e == high * (p * w) + (e + w * x)
  {
    assert (high * p + x) * w == (high * p) * w + x * w;
    MulAssoc(high, p, w);
  }

  /** Splitting off the last chunk of nine digits, or of what is left. */
  lemma ChunkValue(t: string, k: nat)
    requires AllDigits(t) && k <= |t| && |t| - k <= 9 && (k == 0 || |t| - k == 9)
    ensures 0 <= DecimalValue(t[k..]) < BASE
    ensures DecimalValue(t) == DecimalValue(t[..k]) * BASE + DecimalValue(t[k..])
  {
    BigIntMul.RadixValues();
    DecimalValueNonNegative(t[k..]);
    PowMono(10, |t| - k, 9);
    if k == 0 {
      assert t[k..] == t && t[..k] == "";
    } else {
      assert t == t[..k] + t[k..];
      DecimalValueConcat(t[..k], t[k..]);
    }
  }

  /** One chunk becomes one more limb. */
  lemma ChunkStep(total: int, high: int, x: int, a: seq<int>)
    requires total == high * BASE + x
    ensures total * Pow(BASE, |a|) + Eval(a, BASE) == high * Pow(BASE, |a| + 1) + Eval(a + [x], BASE)
  {
    EvalPush(a, x, BASE);
    ChunkAlgebra(high, BASE, x, Pow(BASE, |a|), Eval(a, BASE));
  }

  /** The chunk loop of `read`, from the least significant digits up. */
  method ReadLimbs(t: string) returns (a: seq<int>)
    requires AllDigits(t)
    ensures IsDigits(a, BASE) && Eval(a, BASE) == DecimalValue(t)
  {
    a := [];
    var i := |t| - 1;
    assert t[..i + 1] == t;
    while i >= 0
      invariant -9 <= i < |t| && IsDigits(a, BASE)
      invariant DecimalValue(t) == DecimalValue(if i < 0 then "" else t[..i + 1]) * Pow(BASE, |a|) + Eval(a, BASE)
    {
      var k := if i - 8 < 0 then 0 else i - 8;
      ghost var u := t[..i + 1];
      ChunkValue(u, k);
      ChunkStep(DecimalValue(u), DecimalValue(u[..k]), DecimalValue(u[k..]), a);
      assert u[k..] == t[k..i + 1] && u[..k] == t[..k];
      assert i - 9 < 0 ==> t[..k] == "";
      var x := ReadChunk(t, k, i + 1);
      a := a + [x];
      i := i - 9;
    }
  }

  /** `read`. */
  method Read(s: string) returns (r: BigInt)
    requires Numeral(s)
    ensures Canonical(r) && Value(r) == NumeralValue(s)
  {
    var pos, sign := ReadSigns(s);
    SignCountBound(s);
    var a := ReadLimbs(s[pos..]);
    r := Trim(BigInt(sign, a));
  }

  lemma SignedDecimalIsNumeral(n: int)
    ensures Numeral(SignedDecimal(n)) && NumeralValue(SignedDecimal(n)) == n
  {
    var m := if n < 0 then -n else n;
    var s, d := SignedDecimal(n), Decimal(m);
    DecimalValueOf(m);
    assert SignCount(d) == 0 && SignOf(d) == 1;
    if n < 0 {
      assert s[1..] == d;
      assert Body(s) == d;
    } else {
      assert Body(s) == d;
    }
  }

  lemma PrintedForm(v: BigInt)
    requires Canonical(v)
    ensures Mag(v) >= 0 && (if v.sign == -1 then "-" else "") + Decimal(Mag(v)) == SignedDecimal(Value(v))
  {
    MagZero(v);
  }

  /** Reading back what was printed restores the number, limb for limb. */
  method PrintThenRead(x: BigInt) returns (y: BigInt)
    requires Canonical(x)
    ensures y == x
  {
    var s := Print(x);
    PrintedForm(x);
    SignedDecimalIsNumeral(Value(x));
    y := Read(s);
    CanonicalUnique(x, y);
  }

  /** Printing what was read gives the shortest decimal of the numeral's value. */
  method ReadThenPrint(s: string) returns (t: string)
    requires Numeral(s)
    ensures t == SignedDecimal(NumeralValue(s))
  {
    var x := Read(s);
    t := Print(x);
    PrintedForm(x);
  }

  // ----- what numerals mean -----

  /** A plus sign changes nothing, a minus sign negates. */
  lemma SignLaws(s: string)
    ensures NumeralValue("+" + s) == NumeralValue(s)
    ensures NumeralValue("-" + s) == -NumeralValue(s)
  {
    SignCountBound(s);
    assert ("+" + s)[1..] == s && ("-" + s)[1..] == s;
    assert Body("+" + s) == Body(s) && Body("-" + s) == Body(s);
    assert -SignOf(s) * DecimalValue(Body(s)) == -(SignOf(s) * DecimalValue(Body(s)));
  }

  /** A string of signs, and what it does to a number. */
  predicate AllSigns(g: string) { forall i :: 0 <= i < |g| ==> g[i] == '+' || g[i] == '-' }

  function WithSigns(g: string, n: int): int { if multiset(g)['-'] % 2 == 1 then -n else n }

  lemma OneMoreSign(c: char, h: string, n: int)
    requires c == '+' || c == '-'
    ensures WithSigns([c] + h, n) == if c == '-' then -WithSigns(h, n) else WithSigns(h, n)
  {
    assert multiset([c] + h) == multiset{c} + multiset(h);
  }

  /** Signs `g` in front of digits `t`: the number, negated exactly for an odd count of minus
      signs. */
  lemma {:induction false} SignsThenDigits(g: string, t: string)
    requires AllSigns(g) && forall i :: 0 <= i < |t| ==> '0' <= t[i] <= '9'
    ensures Numeral(g + t) && Body(g + t) == t && NumeralValue(g + t) == WithSigns(g, DecimalValue(t))
  {
    if g == "" {
      assert g + t == t && SignCount(t) == 0 && t[0..] == t;
    } else {
      var c, h := g[0], g[1..];
      SignsThenDigits(h, t);
      assert g == [c] + h && g + t == [c] + (h + t);
      OneMoreSign(c, h, DecimalValue(t));
      SignLaws(h + t);
      SameBody(c, h + t);
      hide NumeralValue, DecimalValue, Body, SignOf, SignCount, WithSigns;
    }
  }

  lemma SameBody(c: char, s: string)
    requires c == '+' || c == '-'
    ensures Body([c] + s) == Body(s)
  {
    SignCountBound(s);
    assert ([c] + s)[1..] == s;
  }

  /** `read` of signs followed by digits. */
  method ReadSigned(g: string, t: string) returns (r: BigInt)
    requires AllSigns(g) && forall i :: 0 <= i < |t| ==> '0' <= t[i] <= '9'
    ensures Canonical(r) && Value(r) == if multiset(g)['-'] % 2 == 1 then -DecimalValue(t) else DecimalValue(t)
  {
    SignsThenDigits(g, t);
    r := Read(g + t);
  }

  /** Decimal notation: a digit stands for itself, and the most significant one comes first. */
  lemma DecimalNotation(d: int)
    requires 0 <= d < 10
    ensures DecimalValue(["0123456789"[d]]) == d && Decimal(d) == ["0123456789"[d]]
    ensures DecimalValue("42") == 42 && Decimal(42) == "42"
  {
    assert ["0123456789"[d]][..0] == "" && "42"[..1] == "4" && "4"[..0] == "";
    assert Decimal(42) == Decimal(4) + [DigitChar(2)] && Decimal(4) == "4";
  }
}
