/** The part iterator of the usage formatter: a row is read cell by cell, but handed out line by
    line. */
module LineParts {
  import opened Utf8

  const TAB: Byte := 9
  const NL: Byte := 10
  const VT: Byte := 11

  datatype Part = Part(col: nat, line: nat, data: seq<Byte>)

  // ----- the transpose -----

  /** The pieces between separators; there is always at least one. */
  function Split(s: seq<Byte>, sep: Byte): (r: seq<seq<Byte>>)
    ensures r != []
  {
    if s == [] then [[]]
    else
      var r := Split(s[1..], sep);
      if s[0] == sep then [[]] + r else [[s[0]] + r[0]] + r[1..]
  }

  /** Line `t` of a cell, empty if the cell has fewer lines. */
  function LineOf(cell: seq<Byte>, t: nat): seq<Byte> {
    var ls := Split(cell, VT);
    if t < |ls| then ls[t] else []
  }

  /** Line `t` across all cells, one part for each column. */
  function Across(cells: seq<seq<Byte>>, t: nat, col: nat): seq<Part> {
    if cells == [] then [] else [Part(col, t, LineOf(cells[0], t))] + Across(cells[1..], t, col + 1)
  }

  function Max(a: int, b: int): int { if a >= b then a else b }

  /** The index of the last line of the cell with the most lines. */
  function LastLine(cells: seq<seq<Byte>>): nat {
    if cells == [] then 0 else Max(|Split(cells[0], VT)| - 1, LastLine(cells[1..]))
  }

  function Lines(cells: seq<seq<Byte>>, t: nat): seq<Part>
    decreases LastLine(cells) + 1 - t
  {
    if t > LastLine(cells) then [] else Across(cells, t, 0) + Lines(cells, t + 1)
  }

  /** All lines of a row, from top to bottom. */
  function Transpose(row: seq<Byte>): seq<Part> { Lines(Split(row, TAB), 0) }

  // ----- the transpose, position by position -----

  function Join(ps: seq<seq<Byte>>, sep: Byte): seq<Byte>
    requires ps != []
  {
    if |ps| == 1 then ps[0] else ps[0] + [sep] + Join(ps[1..], sep)
  }

  /** Splitting is undone by joining, and no piece holds a separator. */
  lemma {:induction false} SplitThenJoin(s: seq<Byte>, sep: Byte)
    ensures Join(Split(s, sep), sep) == s
    ensures forall i :: 0 <= i < |Split(s, sep)| ==> sep !in Split(s, sep)[i]
  {
    if s != [] {
      var r := Split(s[1..], sep);
      SplitThenJoin(s[1..], sep);
      assert s == [s[0]] + s[1..];
      if s[0] == sep {
        assert ([[]] + r)[1..] == r;
      } else {
        var q := [[s[0]] + r[0]] + r[1..];
        assert q[1..] == r[1..];
        if |r| > 1 {
          assert [s[0]] + r[0] + [sep] + Join(r[1..], sep) == [s[0]] + (r[0] + [sep] + Join(r[1..], sep));
        }
      }
    }
  }

  lemma {:induction false} AcrossAt(cells: seq<seq<Byte>>, t: nat, col: nat)
    ensures |Across(cells, t, col)| == |cells|
    ensures forall c :: 0 <= c < |cells| ==> Across(cells, t, col)[c] == Part(col + c, t, LineOf(cells[c], t))
  {
    if cells != [] {
      AcrossAt(cells[1..], t, col + 1);
      assert forall c :: 1 <= c < |cells| ==> cells[c] == cells[1..][c - 1] && Across(cells, t, col)[c] == Across(cells[1..], t, col + 1)[c - 1];
    }
  }

  /** The last line is that of a cell with the most lines. */
  lemma {:induction false} LastLineIsGreatest(cells: seq<seq<Byte>>)
    ensures forall c :: 0 <= c < |cells| ==> |Split(cells[c], VT)| - 1 <= LastLine(cells)
    ensures cells != [] ==> exists c :: 0 <= c < |cells| && |Split(cells[c], VT)| - 1 == LastLine(cells)
  {
    if cells != [] {
      LastLineIsGreatest(cells[1..]);
      assert forall c :: 1 <= c < |cells| ==> cells[c] == cells[1..][c - 1];
      if |Split(cells[0], VT)| - 1 == LastLine(cells) {
      } else {
        assert cells[1..] != [];
        var c :| 0 <= c < |cells[1..]| && |Split(cells[1..][c], VT)| - 1 == LastLine(cells[1..]);
        assert cells[c + 1] == cells[1..][c];
      }
    }
  }

  lemma OneLineLess(k: nat, n: nat)
    requires k >= 1
    ensures k * n == (k - 1) * n + n
  {
  }

  /** Lines from `t0` on: part `c` of line `t` stands `t - t0` whole lines and `c` parts in. */
  lemma {:induction false} LinesAt(cells: seq<seq<Byte>>, t0: nat, t: nat, c: nat, at: nat)
    requires t0 <= t <= LastLine(cells) && c < |cells| && at == (t - t0) * |cells| + c
    ensures at < |Lines(cells, t0)| && Lines(cells, t0)[at] == Part(c, t, LineOf(cells[c], t))
    decreases t - t0
  {
    hide LineOf, LastLine, Across;
    AcrossAt(cells, t0, 0);
    assert Lines(cells, t0) == Across(cells, t0, 0) + Lines(cells, t0 + 1);
    if t > t0 {
      OneLineLess(t - t0, |cells|);
      LinesAt(cells, t0 + 1, t, c, at - |cells|);
    } else {
      assert (t - t0) * |cells| == 0;
    }
  }

  /** The transpose has one part for each column on each line, as many lines as the longest cell,
      and part `c` of line `t` is line `t` of cell `c`. */
  lemma TransposeAt(row: seq<Byte>, t: nat, c: nat)
    requires t <= LastLine(Split(row, 9)) && c < |Split(row, 9)|
    ensures var n, at := |Split(row, 9)|, t * |Split(row, 9)| + c;
            at < |Transpose(row)| && Transpose(row)[at] == Part(c, t, LineOf(Split(row, 9)[c], t))
  {
    hide Split, LineOf, LastLine;
    LinesAt(Split(row, TAB), 0, t, c, t * |Split(row, TAB)| + c);
  }

  lemma {:induction false} LinesCount(cells: seq<seq<Byte>>, t: nat)
    requires t <= LastLine(cells) + 1
    ensures |Lines(cells, t)| == (LastLine(cells) + 1 - t) * |cells|
    decreases LastLine(cells) + 1 - t
  {
    hide LastLine, Across, LineOf;
    if t <= LastLine(cells) {
      LinesCount(cells, t + 1);
      AcrossAt(cells, t, 0);
      assert (LastLine(cells) + 1 - t) * |cells| == (LastLine(cells) - t) * |cells| + |cells|;
    }
  }

  /** The manual's example: a row of two cells with two lines each, given as bytes. */
  lemma ManualExample()
    ensures Transpose([49, 11, 51, 9, 50, 11, 52]) == [Part(0, 0, [49]), Part(1, 0, [50]), Part(0, 1, [51]), Part(1, 1, [52])]
  {
    var row: seq<Byte> := [49, 11, 51, 9, 50, 11, 52];
    var a: seq<Byte>, b: seq<Byte> := [49, 11, 51], [50, 11, 52];
    assert row == a + [9] + b && a == [49] + [11] + [51] && b == [50] + [11] + [52];
    hide Split;
    SplitOnce(a, b, TAB);
    SplitOnce([49], [51], VT);
    SplitOnce([50], [52], VT);
    TwoByTwo(a, b);
  }

  lemma TwoByTwo(a: seq<Byte>, b: seq<Byte>)
    requires |Split(a, VT)| == 2 && |Split(b, VT)| == 2
    ensures Lines([a, b], 0) == [Part(0, 0, Split(a, VT)[0]), Part(1, 0, Split(b, VT)[0]), Part(0, 1, Split(a, VT)[1]), Part(1, 1, Split(b, VT)[1])]
  {
    hide Split;
    var cells := [a, b];
    assert cells[1..] == [b] && [b][1..] == [];
    assert LastLine([b]) == 1 && LastLine(cells) == 1;
    assert Across([b], 0, 1) == [Part(1, 0, Split(b, VT)[0])] && Across([b], 1, 1) == [Part(1, 1, Split(b, VT)[1])];
    assert Lines(cells, 2) == [];
    assert Lines(cells, 1) == Across(cells, 1, 0);
  }

  lemma {:induction false} SplitNone(b: seq<Byte>, sep: Byte)
    requires sep !in b
    ensures Split(b, sep) == [b]
  {
    if b != [] {
      SplitNone(b[1..], sep);
      assert b == [b[0]] + b[1..];
    }
  }

  lemma {:induction false} SplitOnce(a: seq<Byte>, b: seq<Byte>, sep: Byte)
    requires sep !in a && sep !in b
    ensures Split(a + [sep] + b, sep) == [a, b]
  {
    var s := a + [sep] + b;
    if a == [] {
      assert s[1..] == b;
      SplitNone(b, sep);
    } else {
      SplitOnce(a[1..], b, sep);
      assert s[1..] == a[1..] + [sep] + b && a == [a[0]] + a[1..];
    }
  }

  // ----- the scan -----

  predicate IsSep(b: Byte) { b == TAB || b == VT }

  /** The part at the beginning of a text. */
  function Lead(s: seq<Byte>): (r: seq<Byte>)
    ensures |r| <= |s| && r == s[..|r|] && (|r| < |s| ==> IsSep(s[|r|])) && forall i :: 0 <= i < |r| ==> !IsSep(r[i])
  {
    if s == [] || IsSep(s[0]) then [] else [s[0]] + Lead(s[1..])
  }

  /** The parts of line `t` that a scan of `s` meets, being at line `line` of cell `col`; `hit`
      tells whether this cell's part was met. */
  function Scan(s: seq<Byte>, t: nat, line: nat, hit: bool, col: nat): seq<Part>
    decreases s
  {
    if s == [] then
      if hit then [] else [Part(col, t, [])]
    else if s[0] == VT then
      (if line + 1 == t then [Part(col, t, Lead(s[1..]))] else []) + Scan(s[1..], t, line + 1, hit || line + 1 == t, col)
    else if s[0] == TAB then
      (if hit then [] else [Part(col, t, [])]) + (if t == 0 then [Part(col + 1, t, Lead(s[1..]))] else [])
      + Scan(s[1..], t, 0, t == 0, col + 1)
    else Scan(s[1..], t, line, hit, col)
  }

  /** The greatest line index met. */
  function Deepest(s: seq<Byte>, line: nat): nat {
    if s == [] then 0
    else if s[0] == VT then Max(line + 1, Deepest(s[1..], line + 1))
    else if s[0] == TAB then Deepest(s[1..], 0)
    else Deepest(s[1..], line)
  }

  /** What a scan still finds of cells of which the first one is cut off `line` lines down. */
  function Rest(cells: seq<seq<Byte>>, t: nat, line: nat, hit: bool, col: nat): seq<Part>
    requires cells != []
  {
    (if hit then [] else [Part(col, t, if t >= line then LineOf(cells[0], t - line) else [])]) + Across(cells[1..], t, col + 1)
  }

  lemma LeadIsFirst(s: seq<Byte>)
    ensures Lead(s) == LineOf(Split(s, TAB)[0], 0)
  {
    if s != [] && !IsSep(s[0]) {
      LeadIsFirst(s[1..]);
      var c := Split(s[1..], TAB)[0];
      assert Split(s, TAB)[0] == [s[0]] + c;
      assert ([s[0]] + c)[1..] == c;
    } else if s != [] && s[0] == VT {
      var c := Split(s[1..], TAB)[0];
      assert ([s[0]] + c)[1..] == c;
    }
  }

  lemma LineCons(b: Byte, c: seq<Byte>, k: nat)
    ensures b == VT ==> LineOf([b] + c, k + 1) == LineOf(c, k)
    ensures b != VT && k >= 1 ==> LineOf([b] + c, k) == LineOf(c, k)
  {
    assert ([b] + c)[1..] == c;
  }

  lemma SplitCons(s: seq<Byte>)
    requires s != []
    ensures s[0] == TAB ==> Split(s, TAB)[0] == [] && Split(s, TAB)[1..] == Split(s[1..], TAB)
    ensures s[0] != TAB ==>
              Split(s, TAB)[0] == [s[0]] + Split(s[1..], TAB)[0] && Split(s, TAB)[1..] == Split(s[1..], TAB)[1..]
  {
  }

  /** A scan meets exactly line `t` of what is left of the cells. */
  lemma {:induction false} ScanIsRest(s: seq<Byte>, t: nat, line: nat, hit: bool, col: nat)
    requires hit <==> t <= line
    ensures Scan(s, t, line, hit, col) == Rest(Split(s, TAB), t, line, hit, col)
    decreases s
  {
    if s == [] {
      assert hit || LineOf([], t - line) == [];
    } else {
      SplitCons(s);
      LeadIsFirst(s[1..]);
      var more := Split(s[1..], TAB);
      if s[0] == TAB {
        ScanIsRest(s[1..], t, 0, t == 0, col + 1);
        assert Scan(s, t, line, hit, col) ==
               (if hit then [] else [Part(col, t, [])]) + (if t == 0 then [Part(col + 1, t, Lead(s[1..]))] else []) + Scan(s[1..], t, 0, t == 0, col + 1);
        hide Scan, Lead, LineOf, Split, Rest, Across;
        RestTab(Split(s, TAB), more, t, line, hit, col);
      } else if s[0] == VT {
        ScanIsRest(s[1..], t, line + 1, hit || line + 1 == t, col);
        hide Lead, LineOf, Split, Across;
        if !hit {
          LineCons(VT, more[0], t - line - 1);
        }
      } else {
        ScanIsRest(s[1..], t, line, hit, col);
        hide Lead, LineOf, Split, Across;
        if !hit {
          LineCons(s[0], more[0], t - line);
        }
      }
    }
  }

  /** What is left at a tab: an empty part if this cell's was not met, and all of the next cells. */
  lemma RestTab(cells: seq<seq<Byte>>, more: seq<seq<Byte>>, t: nat, line: nat, hit: bool, col: nat)
    requires cells != [] && cells[0] == [] && cells[1..] == more != [] && (hit <==> t <= line)
    ensures Rest(cells, t, line, hit, col) ==
            (if hit then [] else [Part(col, t, [])]) + (if t == 0 then [Part(col + 1, t, LineOf(more[0], 0))] else []) + Rest(more, t, 0, t == 0, col + 1)
  {
    EmptyCell(t - line);
    hide LineOf;
    assert Across(more, t, col + 1) == [Part(col + 1, t, LineOf(more[0], t))] + Across(more[1..], t, col + 2);
  }

  lemma EmptyCell(k: int)
    ensures k >= 0 ==> LineOf([], k) == []
  {
  }

  lemma {:induction false} DeepestIsLast(s: seq<Byte>, line: nat)
    ensures var cells := Split(s, TAB);
            Max(line, Deepest(s, line)) == Max(line + |Split(cells[0], VT)| - 1, LastLine(cells[1..]))
    decreases s
  {
    if s != [] {
      var cells := Split(s, TAB);
      var more := Split(s[1..], TAB);
      if s[0] == TAB {
        DeepestIsLast(s[1..], 0);
        assert cells[0] == [] && cells[1..] == more;
      } else {
        var c := more[0];
        assert cells[0] == [s[0]] + c && cells[1..] == more[1..] && ([s[0]] + c)[1..] == c;
        DeepestIsLast(s[1..], if s[0] == VT then line + 1 else line);
      }
    }
  }

  /** The lines from `t` on, each found by a scan of its own. */
  function Later(row: seq<Byte>, t: nat): seq<Part>
    decreases Deepest(row, 0) + 1 - t
  {
    if t > Deepest(row, 0) then [] else Scan(row, t, 0, false, 0) + Later(row, t + 1)
  }

  lemma {:induction false} LaterIsLines(row: seq<Byte>, t: nat)
    requires t >= 1
    ensures Later(row, t) == Lines(Split(row, TAB), t)
    decreases Deepest(row, 0) + 1 - t
  {
    DeepestIsLast(row, 0);
    var cells := Split(row, TAB);
    if t <= Deepest(row, 0) {
      LaterIsLines(row, t + 1);
      ScanIsRest(row, t, 0, false, 0);
      assert Rest(cells, t, 0, false, 0) == Across(cells, t, 0);
    }
  }

  /** Repeated scans hand out the transpose of the row. */
  lemma ScansAreTranspose(row: seq<Byte>)
    ensures Transpose(row) == [Part(0, 0, Lead(row))] + (Scan(row, 0, 0, true, 0) + Later(row, 1))
  {
    hide Lead;
    var cells := Split(row, TAB);
    LeadIsFirst(row);
    ScanIsRest(row, 0, 0, true, 0);
    LaterIsLines(row, 1);
    assert Rest(cells, 0, 0, true, 0) == Across(cells[1..], 0, 1);
    assert Across(cells, 0, 0) == [Part(0, 0, Lead(row))] + Across(cells[1..], 0, 1);
  }

  /** The bytes of a part hold nothing for the scan. */
  lemma {:induction false} SkipLead(s: seq<Byte>, k: nat, t: nat, line: nat, hit: bool, col: nat)
    requires k <= |Lead(s)|
    ensures Scan(s[k..], t, line, hit, col) == Scan(s, t, line, hit, col) && Deepest(s[k..], line) == Deepest(s, line)
    decreases s
  {
    if k > 0 {
      SkipLead(s[1..], k - 1, t, line, hit, col);
      assert s[1..][k - 1..] == s[k..];
    } else {
      assert s[0..] == s;
    }
  }

  /** One byte of a scan. */
  lemma StepAt(row: seq<Byte>, p: nat, t: nat, line: nat, hit: bool, col: nat)
    requires p <= |row|
    ensures p == |row| ==>
              && Scan(row[p..], t, line, hit, col) == (if hit then [] else [Part(col, t, Lead(row[p..]))] + Scan(row[p..], t, line, true, col))
              && Deepest(row[p..], line) == 0
    ensures p < |row| && row[p] == VT ==>
              && Deepest(row[p..], line) == Max(line + 1, Deepest(row[p + 1..], line + 1))
              && Scan(row[p..], t, line, hit, col) ==
                 if line + 1 == t then [Part(col, t, Lead(row[p + 1..]))] + Scan(row[p + 1..], t, line + 1, true, col)
                 else Scan(row[p + 1..], t, line + 1, hit, col)
    ensures p < |row| && row[p] == TAB ==>
              && Deepest(row[p..], line) == Deepest(row[p + 1..], 0)
              && Scan(row[p..], t, line, hit, col) ==
                 if !hit then [Part(col, t, Lead(row[p..]))] + Scan(row[p..], t, line, true, col)
                 else if t == 0 then [Part(col + 1, t, Lead(row[p + 1..]))] + Scan(row[p + 1..], t, 0, true, col + 1)
                 else Scan(row[p + 1..], t, 0, false, col + 1)
    ensures p < |row| && row[p] != VT && row[p] != TAB ==>
              Scan(row[p..], t, line, hit, col) == Scan(row[p + 1..], t, line, hit, col) && Deepest(row[p..], line) == Deepest(row[p + 1..], line)
  {
    if p < |row| {
      assert row[p..][1..] == row[p + 1..];
    }
  }

  lemma NextLine(row: seq<Byte>, t: nat)
    ensures row[0..] == row && Later(row, t) == if t > Deepest(row, 0) then [] else Scan(row, t, 0, false, 0) + Later(row, t + 1)
  {
  }

  // ----- the iterator -----

  /** Where the row at the beginning of a text ends. */
  function RowEnd(text: seq<Byte>): (e: nat)
    ensures e <= |text| && (e < |text| ==> text[e] == NL) && forall i :: 0 <= i < e ==> text[i] != NL
  {
    if text == [] || text[0] == NL then 0 else 1 + RowEnd(text[1..])
  }

  /** `LinePartIterator` on one row. */
  class Iterator {
    const text: seq<Byte>
    var ptr: nat
    var col: int
    var len: nat
    var screenLen: nat
    var maxLine: nat
    var line: nat
    var target: nat
    var hit: bool

    ghost function Row(): seq<Byte> { text[..RowEnd(text)] }

    /** The parts still to come. */
    ghost function Remaining(): seq<Part>
      requires ptr + len <= |Row()|
      reads this
    {
      if col < 0 then Transpose(Row())
      else Scan(Row()[ptr + len..], target, line, hit, col) + Later(Row(), target + 1)
    }

    ghost predicate Valid()
      reads this
    {
      && ptr + len <= |Row()| && (target <= Deepest(Row(), 0) || ptr + len == |Row()|)
      && Max(maxLine, Deepest(Row()[ptr + len..], line)) == Deepest(Row(), 0)
      && if col < 0 then col == -1 && ptr == len == line == target == 0 else hit
    }

    /** `restartRow`. */
    constructor (t: seq<Byte>)
      ensures Valid() && text == t && col == -1 && Remaining() == Transpose(Row())
    {
      text := t;
      ptr, col, len, screenLen, maxLine, line, target, hit := 0, -1, 0, 0, 0, 0, 0, true;
      new;
      assert Row()[0..] == Row();
    }

    /** `update_length`: the part at `ptr` and its width on the screen. */
    method UpdateLength()
      requires ptr <= |Row()|
      modifies this`len, this`screenLen
      ensures ptr + len <= |Row()| && Row()[ptr..ptr + len] == Lead(Row()[ptr..]) && screenLen == Width(Lead(Row()[ptr..]))
    {
      len, screenLen := Measure(text, ptr);
    }

    /** The part handed out last. */
    ghost function Current(): Part
      requires Valid() && col >= 0
      reads this
    {
      Part(col, target, Row()[ptr..ptr + len])
    }

    /** What the scan loop still has to find from `ptr` on. */
    ghost function Ahead(): seq<Part>
      requires ptr <= |Row()| && col >= 0
      reads this
    {
      Scan(Row()[ptr..], target, line, hit, col) + Later(Row(), target + 1)
    }

    /** The scan loop at `ptr`, with the lines counted so far. */
    ghost predicate Scanning()
      reads this
    {
      && ptr <= |Row()| && col >= 0 && (target <= Deepest(Row(), 0) || (ptr == |Row()| && hit))
      && Max(maxLine, Deepest(Row()[ptr..], line)) == Deepest(Row(), 0)
    }

    /** Takes the part at `ptr`, which is the next one. */
    method TakePart(ghost all: seq<Part>)
      requires Scanning() && all == [Part(col, target, Lead(Row()[ptr..]))] + (Scan(Row()[ptr..], target, line, true, col) + Later(Row(), target + 1))
      requires target <= Deepest(Row(), 0)
      modifies this`len, this`screenLen, this`hit
      ensures Valid() && all == [Current()] + Remaining() && screenLen == Width(Current().data) && col == old(col)
    {
      hide Scan, Deepest, Lead, Later, Transpose, Width, Iterator.Row, Max;
      UpdateLength();
      hit := true;
      SkipLead(Row()[ptr..], len, target, line, true, col);
      assert Row()[ptr..][len..] == Row()[ptr + len..];
    }

    /** `column`, `line`, `data` and `length`. */
    method Data() returns (p: Part)
      requires Valid() && col >= 0
      ensures p == Current()
    {
      p := Part(col, target, text[ptr..ptr + len]);
    }

    /** How one turn of the scan loop ends, `all` being what was ahead. */
    ghost predicate Turned(s: Status, all: seq<Part>)
      reads this
    {
      match s
      case Found => Valid() && col >= 0 && all == [Current()] + Remaining() && screenLen == Width(Current().data)
      case Finished => Valid() && col >= 0 && all == [] && Remaining() == []
      case GoOn => Scanning() && Ahead() == all
    }

    /** The scan loop at the end of the row: the next line begins, if there is one. */
    method AtEnd(ghost all: seq<Part>) returns (s: Status)
      requires Scanning() && Ahead() == all && ptr == |Row()|
      modifies this`ptr, this`col, this`len, this`screenLen, this`line, this`target, this`hit
      ensures Turned(s, all) && (s == GoOn ==> old(target) < target <= Deepest(Row(), 0))
    {
      hide Scan, Deepest, Lead, Later, Transpose, Width, Iterator.Row;
      ghost var row := Row();
      StepAt(row, ptr, target, line, hit, col);
      NextLine(row, target + 1);
      if !hit {
        TakePart(all);
        return Found;
      }
      target := target + 1;
      if target > maxLine {
        StepAt(row, ptr, target, line, hit, col);
        NextLine(row, target + 1);
        UpdateLength();
        return Finished;
      }
      hit, line, col, ptr := false, 0, 0, 0;
      return GoOn;
    }

    /** The scan loop at a vertical tab: the next line of the cell. */
    method AtBreak(ghost all: seq<Part>) returns (s: Status)
      requires Scanning() && Ahead() == all && ptr < |Row()| && Row()[ptr] == VT
      modifies this`ptr, this`len, this`screenLen, this`maxLine, this`line, this`hit
      ensures Turned(s, all) && (s == GoOn ==> ptr == old(ptr) + 1)
    {
      hide Scan, Deepest, Lead, Later, Transpose, Width, Iterator.Row;
      StepAt(Row(), ptr, target, line, hit, col);
      line := line + 1;
      if line > maxLine {
        maxLine := line;
      }
      ptr := ptr + 1;
      if line == target {
        TakePart(all);
        return Found;
      }
      return GoOn;
    }

    /** The scan loop at a tab: the next cell, after an empty part if this one has too few lines. */
    method AtTab(ghost all: seq<Part>) returns (s: Status)
      requires Scanning() && Ahead() == all && ptr < |Row()| && Row()[ptr] == TAB
      modifies this`ptr, this`col, this`len, this`screenLen, this`line, this`hit
      ensures Turned(s, all) && (s == GoOn ==> ptr == old(ptr) + 1)
    {
      hide Scan, Deepest, Lead, Later, Transpose, Width, Iterator.Row;
      StepAt(Row(), ptr, target, line, hit, col);
      if !hit {
        TakePart(all);
        return Found;
      }
      hit, line, col, ptr := false, 0, col + 1, ptr + 1;
      if line == target {
        TakePart(all);
        return Found;
      }
      return GoOn;
    }

    /** `next`: hands out the next part of the transpose, if there is one. */
    method Next() returns (ok: bool)
      requires Valid()
      modifies this`ptr, this`col, this`len, this`screenLen, this`maxLine, this`line, this`target, this`hit
      ensures Valid() && col >= 0 && (ok <==> old(Remaining()) != [])
      ensures if ok then old(Remaining()) == [Current()] + Remaining() && screenLen == Width(Current().data) else Remaining() == []
    {
      hide Scan, Deepest, Lead, Later, Transpose, Width;
      ghost var row, all := Row(), Remaining();
      if col == -1 {
        ScansAreTranspose(row);
        col := 0;
        assert row[0..] == row;
        TakePart(all);
        return true;
      }
      ptr := ptr + len;
      while true
        invariant Scanning() && Ahead() == all
        decreases Deepest(row, 0) - target, |row| - ptr
      {
        var s;
        if ptr == |text| || text[ptr] == NL {
          s := AtEnd(all);
        } else if text[ptr] == VT {
          s := AtBreak(all);
        } else if text[ptr] == TAB {
          s := AtTab(all);
        } else {
          StepAt(row, ptr, target, line, hit, col);
          ptr := ptr + 1;
          s := GoOn;
        }
        if s != GoOn {
          return s == Found;
        }
      }
    }
  }

  lemma OneMore(parts: seq<Part>, p: Part, rest: seq<Part>)
    ensures parts + ([p] + rest) == (parts + [p]) + rest
  {
  }

  datatype Status = Found | Finished | GoOn

  /** All parts of a row, with their screen widths. */
  method AllParts(text: seq<Byte>) returns (parts: seq<Part>, widths: seq<nat>)
    ensures parts == Transpose(text[..RowEnd(text)])
    ensures |widths| == |parts| && forall i :: 0 <= i < |parts| ==> widths[i] == Width(parts[i].data)
  {
    hide Transpose, Width, Scan, Later, Deepest, RowEnd;
    var it := new Iterator(text);
    parts, widths := [], [];
    ghost var all := Transpose(text[..RowEnd(text)]);
    ghost var rest := it.Remaining();
    var more := it.Next();
    while more
      invariant it.Valid() && it.text == text && it.col >= 0 && parts + rest == all && (more <==> rest != [])
      invariant more ==> rest == [it.Current()] + it.Remaining() && it.screenLen == Width(it.Current().data)
      invariant |widths| == |parts| && forall i :: 0 <= i < |parts| ==> widths[i] == Width(parts[i].data)
      decreases |rest|
    {
      var p := it.Data();
      ghost var tail := it.Remaining();
      OneMore(parts, p, tail);
      parts, widths := parts + [p], widths + [it.screenLen];
      more := it.Next();
      rest := tail;
    }
  }

  /** The length and the screen width of the part at `p`. */
  method Measure(text: seq<Byte>, p: nat) returns (len: nat, screen: nat)
    requires p <= RowEnd(text)
    ensures var lead := Lead(text[..RowEnd(text)][p..]);
            p + len <= RowEnd(text) && text[..RowEnd(text)][p..p + len] == lead && screen == Width(lead)
  {
    hide Lead, Width, RowEnd, CharLen, CharWidth;
    LeadInText(text, p);
    ghost var lead := Lead(text[..RowEnd(text)][p..]);
    len, screen := 0, 0;
    assert lead[0..] == lead;
    while p + len < |text| && text[p + len] != VT && text[p + len] != TAB && text[p + len] != NL
      invariant len <= |lead| && screen + Width(lead[len..]) == Width(lead)
      decreases |lead| - len
    {
      DecodeWithin(lead, len, text, p);
      var n, w := Decode(text, p + len, |text|);
      screen := screen + w;
      len := len + n;
    }
    NoWidth(lead, len);
  }

  lemma NoWidth(lead: seq<Byte>, k: nat)
    requires k <= |lead|
    ensures k == |lead| ==> Width(lead[k..]) == 0
  {
  }

  /** The part at `p`, seen in the whole text. */
  lemma LeadInText(text: seq<Byte>, p: nat)
    requires p <= RowEnd(text)
    ensures var row, lead := text[..RowEnd(text)], Lead(text[..RowEnd(text)][p..]);
            && p + |lead| <= |row| && lead == text[p..p + |lead|] && row[p..p + |lead|] == lead
            && (p + |lead| < |text| ==> text[p + |lead|] == TAB || text[p + |lead|] == VT || text[p + |lead|] == NL)
            && (forall i :: p <= i < p + |lead| ==> text[i] != TAB && text[i] != VT && text[i] != NL)
  {
    hide Lead, RowEnd;
    var s := text[..RowEnd(text)][p..];
    var lead := Lead(s);
    assert s == text[p..RowEnd(text)];
    assert forall i :: p <= i < p + |lead| ==> text[i] == lead[i - p];
    assert |lead| < |s| ==> s[|lead|] == text[p + |lead|];
  }

  /** A character does not reach beyond its part, since separators are no continuation bytes. */
  lemma DecodeWithin(lead: seq<Byte>, k: nat, text: seq<Byte>, p: nat)
    requires k < |lead| && p + |lead| <= |text| && lead == text[p..p + |lead|]
    requires p + |lead| < |text| ==> text[p + |lead|] < 0x80
    ensures var n, w := CharLen(text[p + k..|text|]), CharWidth(text[p + k..|text|]);
            k + n <= |lead| && Width(lead[k..]) == w + Width(lead[k + n..])
  {
    hide CharLen, CharWidth;
    var a, b := lead[k..], text[p + |lead|..];
    assert text[p + k..|text|] == a + b;
    FirstChar(a, b);
    assert a[CharLen(a)..] == lead[k + CharLen(a)..];
  }
}
