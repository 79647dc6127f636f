/** Screen width of UTF-8 text, decoded as leniently as the usage formatter does. */
module Utf8 {
  type Byte = x: int | 0 <= x < 256

  predicate IsCont(b: Byte) { 0x80 <= b <= 0xBF }

  /** How many continuation bytes a text begins with. */
  function Conts(s: seq<Byte>): (n: nat)
    ensures n <= |s| && (forall i :: 0 <= i < n ==> IsCont(s[i])) && (n < |s| ==> !IsCont(s[n]))
  {
    if s == [] || !IsCont(s[0]) then 0 else 1 + Conts(s[1..])
  }

  /** Bytes up to 0xC1 stand alone; others take in the continuation bytes that follow. */
  function CharLen(s: seq<Byte>): (n: nat)
    requires s != []
    ensures 1 <= n <= |s|
  {
    if s[0] <= 0xC1 then 1 else 1 + Conts(s[1..])
  }

  /** A lead byte without its length bits; for 0xFF, which has no zero bit, nothing is left. */
  function LeadBits(b: Byte): (c: nat)
    requires b > 0xC1
    ensures c <= 0x1F
  {
    if b < 0xE0 then b - 0xC0
    else if b < 0xF0 then b - 0xE0
    else if b < 0xF8 then b - 0xF0
    else if b < 0xFC then b - 0xF8
    else if b < 0xFE then b - 0xFC
    else 0
  }

  /** One more continuation byte, in 32-bit arithmetic. */
  function Shifted(c: nat, b: Byte): nat
    requires IsCont(b)
  {
    (c * 64 + (b - 0x80)) % 0x1_0000_0000
  }

  function Code(c: nat, conts: seq<Byte>): nat
    requires forall i :: 0 <= i < |conts| ==> IsCont(conts[i])
    decreases conts
  {
    if conts == [] then c else Code(Shifted(c, conts[0]), conts[1..])
  }

  /** The code points shown two columns wide. */
  predicate IsWide(c: nat) {
    c != 0x303F &&
    (0x1100 <= c <= 0x115F || 0x2329 <= c <= 0x232A || 0x2E80 <= c <= 0xA4C6 || 0xA960 <= c <= 0xA97C || 0xAC00 <= c <= 0xD7FB ||
     0xF900 <= c <= 0xFAFF || 0xFE10 <= c <= 0xFE6B || 0xFF01 <= c <= 0xFF60 || 0xFFE0 <= c <= 0xFFE6 || 0x1B000 <= c)
  }

  /** The width of the first character. */
  function CharWidth(s: seq<Byte>): (w: nat)
    requires s != []
    ensures 1 <= w <= 2 && w <= CharLen(s)
  {
    if s[0] > 0xC1 && IsWide(Code(LeadBits(s[0]), s[1..CharLen(s)])) then
      2
    else 1
  }

  function Width(s: seq<Byte>): nat {
    if s == [] then 0 else CharWidth(s) + Width(s[CharLen(s)..])
  }

  lemma {:induction false} WidthAtMostLength(s: seq<Byte>)
    ensures Width(s) <= |s|
  {
    if s != [] {
      WidthAtMostLength(s[CharLen(s)..]);
    }
  }

  /** A byte that is no continuation begins a character. */
  ghost predicate Starts(s: seq<Byte>) { s == [] || !IsCont(s[0]) }

  lemma {:induction false} ContsPrefix(a: seq<Byte>, b: seq<Byte>)
    requires Starts(b)
    ensures Conts(a + b) == Conts(a)
  {
    if a == [] {
      assert a + b == b;
    } else {
      assert (a + b)[1..] == a[1..] + b;
      ContsPrefix(a[1..], b);
    }
  }

  lemma FirstChar(a: seq<Byte>, b: seq<Byte>)
    requires a != [] && Starts(b)
    ensures CharLen(a + b) == CharLen(a) && CharWidth(a + b) == CharWidth(a)
  {
    assert (a + b)[1..] == a[1..] + b;
    ContsPrefix(a[1..], b);
    var n := CharLen(a);
    assert (a + b)[1..n] == a[1..n];
  }

  /** Widths add up where a character begins. */
  lemma {:induction false} WidthConcat(a: seq<Byte>, b: seq<Byte>)
    requires Starts(b)
    ensures Width(a + b) == Width(a) + Width(b)
  {
    if a == [] {
      assert a + b == b;
    } else {
      FirstChar(a, b);
      var n := CharLen(a);
      assert (a + b)[n..] == a[n..] + b;
      WidthConcat(a[n..], b);
    }
  }

  lemma {:induction false} CodeAppend(c: nat, conts: seq<Byte>, b: Byte)
    requires IsCont(b) && forall i :: 0 <= i < |conts| ==> IsCont(conts[i])
    ensures Code(c, conts + [b]) == Shifted(Code(c, conts), b)
    decreases conts
  {
    if conts != [] {
      CodeAppend(Shifted(c, conts[0]), conts[1..], b);
      assert (conts + [b])[1..] == conts[1..] + [b];
    } else {
      assert conts + [b] == [b] && [b][1..] == [];
    }
  }

  /** The decoding of one character at position `i` of `data`, not looking beyond `end`. */
  method Decode(data: seq<Byte>, i: nat, end: nat) returns (n: nat, w: nat)
    requires i < end <= |data|
    ensures n == CharLen(data[i..end]) && w == CharWidth(data[i..end])
  {
    n, w := 1, 1;
    ghost var s := data[i..end];
    if data[i] > 0xC1 {
      var code := LeadBits(data[i]);
      assert s[1..1] == [];
      while i + n < end && IsCont(data[i + n])
        invariant 1 <= n <= end - i && (forall k :: 1 <= k < n ==> IsCont(s[k])) && code == Code(LeadBits(s[0]), s[1..n])
      {
        CodeAppend(LeadBits(s[0]), s[1..n], data[i + n]);
        assert s[1..n + 1] == s[1..n] + [data[i + n]];
        code := Shifted(code, data[i + n]);
        n := n + 1;
      }
      ContsIs(s[1..], n - 1);
      if code >= 0x1100 && IsWide(code) {
        w := 2;
      }
    }
  }

  lemma ContsIs(s: seq<Byte>, n: nat)
    requires n <= |s| && (forall i :: 0 <= i < n ==> IsCont(s[i])) && (n < |s| ==> !IsCont(s[n]))
    ensures Conts(s) == n
  {
  }

  // ----- the standard encoding -----

  /** UTF-8 for the code points of two to four bytes. */
  function Encode(c: nat): (s: seq<Byte>)
    requires 0x80 <= c < 0x110000
    ensures 2 <= |s| <= 4
  {
    if c < 0x800 then [0xC0 + c / 64, 0x80 + c % 64]
    else if c < 0x10000 then [0xE0 + c / 4096, 0x80 + c / 64 % 64, 0x80 + c % 64]
    else [0xF0 + c / 262144, 0x80 + c / 4096 % 64, 0x80 + c / 64 % 64, 0x80 + c % 64]
  }

  lemma ShiftUp(c: nat)
    requires c < 0x1_0000_0000
    ensures IsCont(0x80 + c % 64) && Shifted(c / 64, 0x80 + c % 64) == c
  {
  }

  lemma CodeOne(c: nat, b: Byte)
    requires IsCont(b)
    ensures Code(c, [b]) == Shifted(c, b)
  {
    assert [b][1..] == [];
  }

  lemma CodeMore(c: nat, b: Byte, rest: seq<Byte>)
    requires IsCont(b) && forall i :: 0 <= i < |rest| ==> IsCont(rest[i])
    ensures Code(c, [b] + rest) == Code(Shifted(c, b), rest)
  {
    assert ([b] + rest)[1..] == rest;
  }

  lemma TwoBytes(c: nat)
    requires 0x80 <= c < 0x800
    ensures Encode(c)[0] > 0xC1 && IsCont(Encode(c)[1]) && Code(LeadBits(Encode(c)[0]), Encode(c)[1..]) == c
  {
    var s := Encode(c);
    ShiftUp(c);
    hide Code, Shifted;
    assert s[1..] == [s[1]];
    CodeOne(c / 64, s[1]);
  }

  lemma ThreeBytes(c: nat)
    requires 0x800 <= c < 0x10000
    ensures Encode(c)[0] > 0xC1 && IsCont(Encode(c)[1]) && IsCont(Encode(c)[2]) && Code(LeadBits(Encode(c)[0]), Encode(c)[1..]) == c
  {
    var s := Encode(c);
    assert c / 64 / 64 == c / 4096;
    ShiftUp(c);
    ShiftUp(c / 64);
    hide Code, Shifted;
    assert s[1..] == [s[1]] + [s[2]];
    CodeMore(c / 4096, s[1], [s[2]]);
    CodeOne(c / 64, s[2]);
  }

  lemma FourBytes(c: nat)
    requires 0x10000 <= c < 0x110000
    ensures Encode(c)[0] > 0xC1 && IsCont(Encode(c)[1]) && IsCont(Encode(c)[2]) && IsCont(Encode(c)[3])
    ensures Code(LeadBits(Encode(c)[0]), Encode(c)[1..]) == c
  {
    var s := Encode(c);
    assert c / 64 / 64 == c / 4096 && c / 4096 / 64 == c / 262144;
    ShiftUp(c);
    ShiftUp(c / 64);
    ShiftUp(c / 4096);
    hide Code, Shifted;
    assert s[1..] == [s[1]] + ([s[2]] + [s[3]]);
    CodeMore(c / 262144, s[1], [s[2]] + [s[3]]);
    CodeMore(c / 4096, s[2], [s[3]]);
    CodeOne(c / 64, s[3]);
  }

  /** Decoding an encoded code point, whatever character follows, gives it back, and with it the
      width. */
  lemma EncodeThenDecode(c: nat, rest: seq<Byte>)
    requires 0x80 <= c < 0x110000 && Starts(rest)
    ensures var s := Encode(c) + rest;
            && CharLen(s) == |Encode(c)| && s[0] > 0xC1 && Code(LeadBits(s[0]), s[1..CharLen(s)]) == c
            && CharWidth(s) == if IsWide(c) then 2 else 1
  {
    var e := Encode(c);
    if c < 0x800 {
      TwoBytes(c);
    } else if c < 0x10000 {
      ThreeBytes(c);
    } else {
      FourBytes(c);
    }
    assert forall i :: 1 <= i < |e| ==> IsCont(e[i]);
    ContsIs(e[1..], |e| - 1);
    hide Code, Encode, LeadBits, IsWide;
    assert CharLen(e) == |e| && e[1..|e|] == e[1..];
    FirstChar(e, rest);
    assert (e + rest)[1..|e|] == e[1..];
  }

  /** Plain ASCII is one byte and one column. */
  lemma AsciiWidth(b: Byte, rest: seq<Byte>)
    requires b < 0x80
    ensures CharLen([b] + rest) == 1 && CharWidth([b] + rest) == 1
  {
  }

  /** Some of the wide characters, and some that are not: Hangul, CJK and fullwidth forms; Latin,
      Greek, Cyrillic, and the half fill space. */
  lemma WideExamples()
    ensures IsWide(0x1100) && IsWide(0x3042) && IsWide(0x4E00) && IsWide(0xAC00) && IsWide(0xFF21) && IsWide(0x20000)
    ensures !IsWide(0x303F) && !IsWide(0xFF61) && !IsWide(0x2328) && !IsWide(0x1160) && forall c: nat :: c < 0x1100 ==> !IsWide(c)
  {
  }
}
