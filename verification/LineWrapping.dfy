/** The line wrapper of the usage formatter: text is cut into pieces that fit a column, and the
    pieces pass through a ring of sixteen slots. */
module LineWrapping {
  import opened Utf8

  const SPACE: Byte := 0x20

  /** A piece of text, and whether a space after it was dropped. */
  datatype Piece = Piece(text: seq<Byte>, dropped: bool)

  // ----- where to cut -----

  /** How many bytes of `s` are taken in before `room` columns are used up. */
  function Fit(s: seq<Byte>, room: nat): (n: nat)
    ensures n <= |s|
  {
    if s == [] || room == 0 || CharWidth(s) > room then 0
    else CharLen(s) + Fit(s[CharLen(s)..], room - CharWidth(s))
  }

  /** The position just behind the last space in `s`, or zero. */
  function BehindSpace(s: seq<Byte>): (i: nat)
    ensures i <= |s| && (i > 0 ==> s[i - 1] == SPACE) && forall j :: i <= j < |s| ==> s[j] != SPACE
  {
    if s == [] then 0 else if s[|s| - 1] == SPACE then |s| else BehindSpace(s[..|s| - 1])
  }

  /** The first piece of a text, for a column at least two wide. */
  function Cut(s: seq<Byte>, width: nat): Piece
    requires width >= 2
  {
    if |s| <= width || Fit(s, width) == |s| then Piece(s, false)
    else
      var i := BehindSpace(s[..Fit(s, width) + 1]);
      if i > 0 then Piece(s[..i - 1], true) else Piece(s[..Fit(s, width)], false)
  }

  /** What a piece took up. */
  function Taken(p: Piece): nat { |p.text| + if p.dropped then 1 else 0 }

  lemma PrefixChar(s: seq<Byte>, i: nat)
    requires s != [] && CharLen(s) <= i <= |s|
    ensures CharLen(s[..i]) == CharLen(s) && CharWidth(s[..i]) == CharWidth(s)
  {
    var n := CharLen(s);
    assert s[..i][1..] == s[1..][..i - 1];
    if s[0] > 0xC1 {
      ContsIs(s[..i][1..], n - 1);
    }
    assert s[..i][1..n] == s[1..n];
  }

  lemma InsideChar(s: seq<Byte>, i: nat)
    requires s != [] && 0 < i < CharLen(s)
    ensures IsCont(s[i])
  {
    assert s[i] == s[1..][i - 1];
  }

  /** What is taken in fits, and so does any part of it that ends where a character begins. */
  lemma {:induction false} PrefixFits(s: seq<Byte>, room: nat, i: nat)
    requires i <= Fit(s, room) && (i == Fit(s, room) || !IsCont(s[i]))
    ensures Width(s[..i]) <= room
    decreases s
  {
    hide CharLen, CharWidth, IsCont;
    if i > 0 {
      var n, w := CharLen(s), CharWidth(s);
      if i < n {
        InsideChar(s, i);
      }
      PrefixChar(s, i);
      assert s[..i][n..] == s[n..][..i - n];
      PrefixFits(s[n..], room - w, i - n);
    }
  }

  /** At least one character fits. */
  lemma FitsOne(s: seq<Byte>, width: nat)
    requires s != [] && width >= 2
    ensures Fit(s, width) >= 1
  {
  }

  /** A piece is no wider than the column, takes up at least one byte, and with the space it
      dropped it is how the text begins. */
  lemma CutIsGood(s: seq<Byte>, width: nat)
    requires s != [] && width >= 2
    ensures var p := Cut(s, width);
            && Width(p.text) <= width && 1 <= Taken(p) <= |s|
            && s == p.text + (if p.dropped then [SPACE] else []) + s[Taken(p)..]
  {
    hide Fit, Width, BehindSpace;
    var m, p := Fit(s, width), Cut(s, width);
    FitsOne(s, width);
    WidthAtMostLength(s);
    PrefixFits(s, width, m);
    assert s[..|s|] == s;
    if !(|s| <= width || m == |s|) {
      var i := BehindSpace(s[..m + 1]);
      if i > 0 {
        assert s[i - 1] == s[..m + 1][i - 1] == SPACE;
        PrefixFits(s, width, i - 1);
        assert s[..i] == s[..i - 1] + [SPACE];
        assert s == s[..i] + s[i..];
      } else {
        assert s == s[..m] + s[m..];
      }
    }
  }

  /** Any longer beginning that ends where a character begins is too wide. */
  lemma {:induction false} LongerIsTooWide(s: seq<Byte>, room: nat, i: nat)
    requires Fit(s, room) < i <= |s| && (i == |s| || !IsCont(s[i]))
    ensures Width(s[..i]) > room
    decreases s
  {
    hide CharLen, CharWidth, IsCont;
    var n, w := CharLen(s), CharWidth(s);
    if i < n {
      InsideChar(s, i);
    }
    PrefixChar(s, i);
    assert s[..i][n..] == s[n..][..i - n];
    if !(room == 0 || w > room) {
      LongerIsTooWide(s[n..], room - w, i - n);
    }
  }

  /** The cut is as late as it can be: no later space, nor the end of the text, would do; and
      without any space the piece cannot take in another character. */
  lemma CutIsLongest(s: seq<Byte>, width: nat, i: nat)
    requires s != [] && width >= 2 && |Cut(s, width).text| < i <= |s|
    requires i == |s| || s[i] == SPACE || (!Cut(s, width).dropped && !IsCont(s[i]))
    ensures Width(s[..i]) > width
  {
    hide Fit, Width, BehindSpace;
    var m := Fit(s, width);
    LongerIsTooWide(s, width, i);
  }

  // ----- all pieces -----

  function Wrap(s: seq<Byte>, width: nat): seq<Piece>
    requires width >= 2
    decreases |s|
  {
    if s == [] then []
    else
      CutIsGood(s, width);
      [Cut(s, width)] + Wrap(s[Taken(Cut(s, width))..], width)
  }

  /** The pieces put together again, with the dropped spaces. */
  function Joined(ps: seq<Piece>): seq<Byte> {
    if ps == [] then [] else ps[0].text + (if ps[0].dropped then [SPACE] else []) + Joined(ps[1..])
  }

  /** Wrapping loses nothing but one space at some cuts, and every piece fits the column. */
  lemma {:induction false} WrapIsGood(s: seq<Byte>, width: nat)
    requires width >= 2
    ensures Joined(Wrap(s, width)) == s
    ensures forall i :: 0 <= i < |Wrap(s, width)| ==> Width(Wrap(s, width)[i].text) <= width && Taken(Wrap(s, width)[i]) >= 1
    decreases |s|
  {
    hide Cut;
    if s != [] {
      CutIsGood(s, width);
      var p := Cut(s, width);
      WrapIsGood(s[Taken(p)..], width);
      assert Wrap(s, width)[1..] == Wrap(s[Taken(p)..], width);
    }
  }

  // ----- finding the cut -----

  /** The loop that looks for the last character that fits. */
  method FindFit(s: seq<Byte>, width: nat) returns (maxi: nat)
    ensures maxi == Fit(s, width)
  {
    hide CharLen, CharWidth, Fit;
    var used := 0;
    maxi := 0;
    assert s[0..] == s;
    while maxi < |s| && used < width
      invariant maxi <= |s| && used <= width && Fit(s, width) == maxi + Fit(s[maxi..], width - used)
      decreases |s| - maxi
    {
      var n, w := Decode(s, maxi, |s|);
      FitStep(s, maxi, width - used);
      if used + w > width {
        return;
      }
      used, maxi := used + w, maxi + n;
    }
    FitEnd(s, maxi, width - used);
  }

  lemma FitStep(s: seq<Byte>, i: nat, room: nat)
    requires i < |s| && room > 0
    ensures var n, w := CharLen(s[i..|s|]), CharWidth(s[i..|s|]);
            i + n <= |s| && Fit(s[i..], room) == if w > room then 0 else n + Fit(s[i + n..], room - w)
  {
    hide CharLen, CharWidth;
    assert s[i..|s|] == s[i..] && s[i..][CharLen(s[i..])..] == s[i + CharLen(s[i..])..];
  }

  lemma FitEnd(s: seq<Byte>, i: nat, room: nat)
    requires i <= |s| && (i == |s| || room == 0)
    ensures Fit(s[i..], room) == 0
  {
  }

  /** The loop that looks back for a space. */
  method FindSpace(s: seq<Byte>, from: nat) returns (i: int)
    requires from < |s|
    ensures i == BehindSpace(s[..from + 1]) - 1
  {
    i := from;
    while i >= 0 && s[i] != SPACE
      invariant -1 <= i <= from && BehindSpace(s[..from + 1]) == BehindSpace(s[..i + 1])
    {
      assert s[..i + 1][..i] == s[..i];
      i := i - 1;
    }
  }

  /** The choice of one piece in `process`. */
  method NextPiece(s: seq<Byte>, width: nat) returns (p: Piece)
    requires s != [] && width >= 2
    ensures p == Cut(s, width)
  {
    hide Fit, BehindSpace;
    if |s| <= width {
      return Piece(s, false);
    }
    var maxi := FindFit(s, width);
    if maxi == |s| {
      return Piece(s, false);
    }
    var i := FindSpace(s, maxi);
    p := if i >= 0 then Piece(s[..i], true) else Piece(s[..maxi], false);
  }

  lemma WrapStep(s: seq<Byte>, width: nat)
    requires s != [] && width >= 2
    ensures 1 <= Taken(Cut(s, width)) <= |s| && Wrap(s, width) == [Cut(s, width)] + Wrap(s[Taken(Cut(s, width))..], width)
  {
    hide Cut;
    CutIsGood(s, width);
  }

  lemma WrapNothing(width: nat)
    requires width >= 2
    ensures Wrap([], width) == []
  {
  }

  // ----- the ring -----

  /** `(i + 1) & 15`. */
  lemma NextSlot(i: nat)
    requires i < SLOTS
    ensures (i + 1) % SLOTS == if i + 1 == SLOTS then 0 else i + 1
  {
  }

  const SLOTS: nat := 16

  const NEWLINE: Byte := 10

  /** What `indent` writes at the beginning of a line; a negative column gets a line of its own. */
  function Indentation(x: int): seq<Byte> { if x < 0 then [NEWLINE] else seq(x, _ => SPACE) }

  /** Pieces on successive lines, all but the first indented. */
  function Lines(ps: seq<Piece>, x: int): seq<Byte> {
    if ps == [] then []
    else if |ps| == 1 then ps[0].text
    else Lines(ps[..|ps| - 1], x) + [NEWLINE] + Indentation(x) + ps[|ps| - 1].text
  }

  /** So many spaces. */
  lemma IndentationIs(x: nat)
    ensures |Indentation(x)| == x && forall i :: 0 <= i < x ==> Indentation(x)[i] == 32
  {
  }

  /** The first piece stands on the current line, any other on a line of its own. */
  lemma LinesOf(p: Piece, q: Piece, x: int)
    ensures Lines([], x) == [] && Lines([p], x) == p.text && Lines([p, q], x) == p.text + [10] + Indentation(x) + q.text
  {
    assert [p, q][..1] == [p];
  }

  lemma LinesMore(ps: seq<Piece>, p: Piece, x: int)
    ensures Lines(ps + [p], x) == Lines(ps, x) + (if ps == [] then [] else [NEWLINE] + Indentation(x)) + p.text
  {
    assert (ps + [p])[..|ps|] == ps;
  }

  /** `LineWrapper`; `out` is what was written, and `written` the pieces in it. */
  class LineWrapper {
    const x: int
    const width: nat
    const ring: array<Piece>
    var head: nat
    var tail: nat
    var wroteSomething: bool
    var out: seq<Byte>
    var written: seq<Piece>

    ghost predicate Valid()
      reads this`head, this`tail
    {
      width >= 2 && ring.Length == SLOTS && head < SLOTS && tail < SLOTS
    }

    /** The first slot to read. */
    ghost function Front(): nat
      reads this`tail
    {
      if tail + 1 == SLOTS then 0 else tail + 1
    }

    /** The pieces in the ring, oldest first. */
    ghost function Queued(): seq<Piece>
      requires Valid()
      reads this`head, this`tail, ring
    {
      if Front() <= head then ring[Front()..head] else ring[Front()..] + ring[..head]
    }

    /** Columns narrower than two are widened: a wide character has to fit. */
    constructor (x1: int, x2: int)
      ensures Valid() && Queued() == [] && written == [] && fresh(ring)
      ensures width == (if x2 - x1 < 2 then 2 else x2 - x1) && x == x1 && out == []
    {
      x, out := x1, [];
      width := if x2 - x1 < 2 then 2 else x2 - x1;
      ring := new Piece[SLOTS](_ => Piece([], false));
      head, tail, wroteSomething, written := 0, SLOTS - 1, false, [];
    }

    method Empty() returns (b: bool)
      requires Valid()
      ensures b <==> Queued() == []
    {
      NextSlot(tail);
      b := (tail + 1) % SLOTS == head;
    }

    method Full() returns (b: bool)
      requires Valid()
      ensures b <==> |Queued()| == SLOTS - 1
    {
      b := tail == head;
    }

    /** `buf_store`, when there is a free slot. */
    method Store(p: Piece)
      requires Valid() && |Queued()| < SLOTS - 1
      modifies this`head, ring
      ensures Valid() && Queued() == old(Queued()) + [p]
    {
      NextSlot(head);
      ring[head] := p;
      head := (head + 1) % SLOTS;
    }

    /** `buf_next` and the read after it. */
    method Take() returns (p: Piece)
      requires Valid() && Queued() != []
      modifies this`tail
      ensures Valid() && old(Queued()) == [p] + Queued()
    {
      NextSlot(tail);
      ghost var next := (tail + 1) % SLOTS;
      NextSlot(next);
      tail := (tail + 1) % SLOTS;
      p := ring[tail];
    }

    /** `write_one_line`: the oldest piece, if there is one, goes out; on a new line unless it is
        the first one of this call. */
    method WriteOneLine()
      requires Valid()
      modifies this`tail, this`wroteSomething, this`written, this`out
      ensures Valid() && wroteSomething && written + Queued() == old(written + Queued())
      ensures if old(Queued()) == [] then written == old(written) else written == old(written) + [old(Queued())[0]]
      ensures |Queued()| <= old(|Queued()|) && (old(Queued()) != [] ==> |Queued()| < old(|Queued()|))
      ensures out == old(out) + (if old(wroteSomething) then [NEWLINE] + Indentation(x) else [])
                     + (if old(Queued()) == [] then [] else old(Queued())[0].text)
    {
      hide LineWrapper.Queued;
      if wroteSomething {
        out := out + [NEWLINE] + Indentation(x);
      }
      var none := Empty();
      if !none {
        var p := Take();
        out := out + p.text;
        written := written + [p];
      }
      wroteSomething := true;
    }

    /** What was written since `out0` and `pieces0`: the new pieces, one per line. */
    ghost predicate Laid(pieces0: seq<Piece>, out0: seq<Byte>)
      reads this`wroteSomething, this`written, this`out
    {
      && pieces0 <= written && (wroteSomething <==> |written| > |pieces0|)
      && out == out0 + Lines(written[|pieces0|..], x)
    }

    /** Writes one line of a non-empty ring. */
    method WriteNext(ghost pieces0: seq<Piece>, ghost out0: seq<Byte>)
      requires Valid() && Queued() != [] && Laid(pieces0, out0)
      modifies this`tail, this`wroteSomething, this`written, this`out
      ensures Valid() && Laid(pieces0, out0) && written + Queued() == old(written + Queued())
      ensures |Queued()| < old(|Queued()|) && |written| == old(|written|) + 1
    {
      hide LineWrapper.Queued;
      ghost var ps, p := written[|pieces0|..], Queued()[0];
      LinesMore(ps, p, x);
      WriteOneLine();
      assert written[|pieces0|..] == ps + [p];
    }

    /** `output`: never overwrites a piece, since a full ring gives one up first. */
    method Output(p: Piece, ghost pieces0: seq<Piece>, ghost out0: seq<Byte>)
      requires Valid() && Laid(pieces0, out0)
      modifies this`head, this`tail, this`wroteSomething, this`written, this`out, ring
      ensures Valid() && Laid(pieces0, out0) && written + Queued() == old(written + Queued()) + [p]
    {
      AtMostFull();
      hide LineWrapper.Queued;
      var full := Full();
      if full {
        WriteNext(pieces0, out0);
      }
      Store(p);
    }

    lemma AtMostFull()
      requires Valid()
      ensures |Queued()| < SLOTS
    {
    }

    /** `process`: all pieces of a text are queued behind the earlier ones; at least one piece
        is written if there is any, the first one on the current line. */
    method Process(data: seq<Byte>)
      requires Valid()
      modifies this`head, this`tail, this`wroteSomething, this`written, this`out, ring
      ensures Valid() && written + Queued() == old(written + Queued()) + Wrap(data, width)
      ensures old(Queued()) != [] || data != [] ==> |written| > old(|written|)
      ensures old(written) <= written && out == old(out) + Lines(written[old(|written|)..], x)
    {
      hide LineWrapper.Queued, Wrap, Cut;
      wroteSomething := false;
      var s := data;
      ghost var before, pieces0, out0 := written + Queued(), written, out;
      assert written[|pieces0|..] == [];
      while s != []
        invariant Valid() && Laid(pieces0, out0) && written + Queued() + Wrap(s, width) == before + Wrap(data, width)
        decreases |s|
      {
        WrapStep(s, width);
        var p := NextPiece(s, width);
        Output(p, pieces0, out0);
        s := s[|p.text| + (if p.dropped then 1 else 0)..];
      }
      WrapNothing(width);
      if data != [] {
        WrapStep(data, width);
      }
      assert |written + Queued()| == |written| + |Queued()|;
      if !wroteSomething {
        LastLine(pieces0, out0);
      }
    }

    method LastLine(ghost pieces0: seq<Piece>, ghost out0: seq<Byte>)
      requires Valid() && Laid(pieces0, out0) && !wroteSomething
      modifies this`tail, this`wroteSomething, this`written, this`out
      ensures Valid() && written + Queued() == old(written + Queued()) && pieces0 <= written
      ensures out == out0 + Lines(written[|pieces0|..], x) && (old(Queued()) != [] ==> |written| > |pieces0|)
    {
      hide LineWrapper.Queued;
      var none := Empty();
      if none {
        WriteOneLine();
      } else {
        WriteNext(pieces0, out0);
      }
    }

    /** `flush`: everything still queued goes out in order, each piece on an indented line. */
    method Flush()
      requires Valid()
      modifies this`tail, this`wroteSomething, this`written, this`out
      ensures Valid() && Queued() == [] && written == old(written + Queued())
      ensures out == old(out) + if old(Queued()) == [] then [] else Indentation(x) + Lines(old(Queued()), x) + [NEWLINE]
    {
      hide LineWrapper.Queued;
      var none := Empty();
      if none {
        return;
      }
      out := out + Indentation(x);
      wroteSomething := false;
      ghost var pieces0, out0 := written, out;
      assert written[|pieces0|..] == [];
      while !none
        invariant Valid() && (none <==> Queued() == []) && Laid(pieces0, out0) && written + Queued() == old(written + Queued())
        decreases |Queued()|
      {
        WriteNext(pieces0, out0);
        none := Empty();
      }
      assert written == written + Queued() == pieces0 + old(Queued());
      assert written[|pieces0|..] == old(Queued());
      out := out + [NEWLINE];
    }
  }

  /** Wraps a list of texts one after the other: every piece comes out once, in order. */
  method WrapAll(texts: seq<seq<Byte>>, x1: int, x2: int) returns (pieces: seq<Piece>)
    ensures var w := if x2 - x1 < 2 then 2 else x2 - x1; pieces == WrapEach(texts, w)
  {
    hide LineWrapper.Queued, Wrap;
    var lw := new LineWrapper(x1, x2);
    assert texts[..0] == [];
    for i := 0 to |texts|
      invariant lw.Valid() && fresh(lw) && fresh(lw.ring)
      invariant lw.written + lw.Queued() == WrapEach(texts[..i], lw.width)
    {
      lw.Process(texts[i]);
      assert texts[..i + 1][..i] == texts[..i];
    }
    assert texts[..|texts|] == texts;
    lw.Flush();
    pieces := lw.written;
  }

  function WrapEach(texts: seq<seq<Byte>>, width: nat): seq<Piece>
    requires width >= 2
  {
    if texts == [] then [] else WrapEach(texts[..|texts| - 1], width) + Wrap(texts[|texts| - 1], width)
  }
}
