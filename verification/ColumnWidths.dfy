/** The column-width loop of the usage formatter: ever shorter parts are ignored until the
    columns left of the last one fit the line. */
module ColumnWidths {
  import LineParts

  const COLUMNS: nat := 8
  const START: nat := 10000

  /** A part of the table: its column, its line within the cell, its width on the screen, and the
      byte that follows it. */
  datatype Part = Part(col: nat, line: nat, screen: nat, next: int)

  /** Whether a part may widen its column: rows without separators may not. */
  predicate Counts(p: Part) { p.col > 0 || p.line > 0 || p.next == LineParts.TAB || p.next == LineParts.VT }

  function Max(a: nat, b: nat): nat { if a >= b then a else b }

  /** How wide column `c` is if parts of width `limit` or more are ignored. */
  function ColWidth(parts: seq<Part>, limit: nat, c: nat): (w: nat)
    ensures w == 0 || w < limit
  {
    if parts == [] then 0
    else
      var n := |parts| - 1;
      var w := ColWidth(parts[..n], limit, c);
      if parts[n].col == c && Counts(parts[n]) && parts[n].screen < limit then Max(w, parts[n].screen) else w
  }

  function LastColumn(parts: seq<Part>): (c: nat)
    ensures c < COLUMNS
  {
    if parts == [] then 0
    else
      var n := |parts| - 1;
      var c := LastColumn(parts[..n]);
      if parts[n].col < COLUMNS then Max(c, parts[n].col) else c
  }

  /** The total width of the first `k` columns. */
  function LeftWidth(parts: seq<Part>, limit: nat, k: nat): nat {
    if k == 0 then 0 else LeftWidth(parts, limit, k - 1) + ColWidth(parts, limit, k - 1)
  }

  /** The widest of the first `k` columns. */
  function Widest(parts: seq<Part>, limit: nat, k: nat): nat {
    if k == 0 then 0 else Max(Widest(parts, limit, k - 1), ColWidth(parts, limit, k - 1))
  }

  /** Part `i` counts for the width of column `c` under a limit: it is short of the limit, and not
      a heading, which is a row of one part in column 0. */
  ghost predicate Relevant(parts: seq<Part>, i: nat, limit: nat, c: nat) {
    i < |parts| && parts[i].col == c && parts[i].screen < limit &&
    !(parts[i].col == 0 && parts[i].line == 0 && parts[i].next != 9 && parts[i].next != 11)
  }

  /** The width of a column is that of its widest part that counts, or zero if none does. */
  lemma {:induction false} ColWidthIsWidest(parts: seq<Part>, limit: nat, c: nat)
    ensures forall i :: 0 <= i < |parts| && Relevant(parts, i, limit, c) ==> parts[i].screen <= ColWidth(parts, limit, c)
    ensures ColWidth(parts, limit, c) == 0 || exists i :: 0 <= i < |parts| && Relevant(parts, i, limit, c) && parts[i].screen == ColWidth(parts, limit, c)
  {
    if parts != [] {
      var n := |parts| - 1;
      var p := parts[..n];
      ColWidthIsWidest(p, limit, c);
      assert forall i :: 0 <= i < n ==> p[i] == parts[i] && (Relevant(p, i, limit, c) <==> Relevant(parts, i, limit, c));
    }
  }

  /** The last column is the greatest one in use among the first eight. */
  lemma {:induction false} LastColumnIsGreatest(parts: seq<Part>)
    ensures forall i :: 0 <= i < |parts| && parts[i].col < 8 ==> parts[i].col <= LastColumn(parts)
    ensures LastColumn(parts) == 0 || exists i :: 0 <= i < |parts| && parts[i].col == LastColumn(parts) < 8
  {
    if parts != [] {
      var p := parts[..|parts| - 1];
      LastColumnIsGreatest(p);
      assert forall i :: 0 <= i < |p| ==> p[i] == parts[i];
    }
  }

  function Sum(s: seq<nat>): nat { if s == [] then 0 else s[0] + Sum(s[1..]) }

  lemma {:induction false} SumAppend(s: seq<nat>, w: nat)
    ensures Sum(s + [w]) == Sum(s) + w
  {
    if s != [] {
      SumAppend(s[1..], w);
      assert (s + [w])[1..] == s[1..] + [w];
    }
  }

  /** The left width is the sum of the columns, and the threshold their maximum. */
  lemma {:induction false} LeftIsSum(widths: seq<nat>, parts: seq<Part>, limit: nat, k: nat)
    requires k <= |widths| && forall c :: 0 <= c < k ==> widths[c] == ColWidth(parts, limit, c)
    ensures LeftWidth(parts, limit, k) == Sum(widths[..k])
    ensures forall c :: 0 <= c < k ==> widths[c] <= Widest(parts, limit, k)
    ensures Widest(parts, limit, k) == 0 || exists c :: 0 <= c < k && widths[c] == Widest(parts, limit, k)
  {
    if k > 0 {
      LeftIsSum(widths, parts, limit, k - 1);
      assert widths[..k] == widths[..k - 1] + [widths[k - 1]];
      SumAppend(widths[..k - 1], widths[k - 1]);
    }
  }

  /** A limit above the widest column makes no difference. */
  lemma {:induction false} SameColumn(parts: seq<Part>, limit: nat, limit': nat, c: nat)
    requires ColWidth(parts, limit, c) < limit' <= limit
    ensures ColWidth(parts, limit', c) == ColWidth(parts, limit, c)
  {
    if parts != [] {
      SameColumn(parts[..|parts| - 1], limit, limit', c);
    }
  }

  lemma {:induction false} SameLeft(parts: seq<Part>, limit: nat, limit': nat, k: nat)
    requires Widest(parts, limit, k) < limit' <= limit
    ensures LeftWidth(parts, limit', k) == LeftWidth(parts, limit, k)
  {
    if k > 0 {
      SameLeft(parts, limit, limit', k - 1);
      SameColumn(parts, limit, limit', k - 1);
    }
  }

  /** The threshold falls as long as the columns are too wide. */
  lemma {:induction false} WidestFalls(parts: seq<Part>, limit: nat, k: nat)
    ensures Widest(parts, limit, k) == 0 || Widest(parts, limit, k) < limit
    ensures Widest(parts, limit, k) == 0 ==> LeftWidth(parts, limit, k) == 0
  {
    if k > 0 {
      WidestFalls(parts, limit, k - 1);
    }
  }

  /** One pass over the table. */
  method Pass(parts: seq<Part>, limit: nat, widths: array<nat>) returns (last: nat)
    requires widths.Length == COLUMNS
    modifies widths
    ensures last == LastColumn(parts) && forall c :: 0 <= c < COLUMNS ==> widths[c] == ColWidth(parts, limit, c)
  {
    last := 0;
    for c := 0 to COLUMNS
      invariant forall k :: 0 <= k < c ==> widths[k] == 0
    {
      widths[c] := 0;
    }
    assert parts[..0] == [];
    for i := 0 to |parts|
      invariant last == LastColumn(parts[..i])
      invariant forall c :: 0 <= c < COLUMNS ==> widths[c] == ColWidth(parts[..i], limit, c)
    {
      assert parts[..i + 1][..i] == parts[..i];
      var p := parts[i];
      if p.col < COLUMNS {
        last := Max(last, p.col);
        if p.screen < limit {
          if p.col > 0 || p.line > 0 || p.next == LineParts.TAB || p.next == LineParts.VT {
            widths[p.col] := Max(widths[p.col], p.screen);
          }
        }
      }
    }
    assert parts[..|parts|] == parts;
  }

  /** The columns left of the last one: their total width and the widest of them. */
  method Measure(widths: array<nat>, last: nat, ghost parts: seq<Part>, ghost limit: nat) returns (left: nat, widest: nat)
    requires widths.Length == COLUMNS && last < COLUMNS
    requires forall c :: 0 <= c < COLUMNS ==> widths[c] == ColWidth(parts, limit, c)
    ensures left == LeftWidth(parts, limit, last) && widest == Widest(parts, limit, last)
  {
    left, widest := 0, 0;
    for i := 0 to last
      invariant left == LeftWidth(parts, limit, i) && widest == Widest(parts, limit, i)
    {
      left := left + widths[i];
      widest := Max(widest, widths[i]);
    }
  }

  /** `limit` is the mildest one that works: any greater one leaves the columns too wide. */
  ghost predicate Mildest(parts: seq<Part>, width: nat, limit: nat) {
    var k := LastColumn(parts);
    && limit <= 10000 && LeftWidth(parts, limit, k) <= width
    && forall l :: limit < l <= 10000 ==> LeftWidth(parts, l, k) > width
  }

  lemma MildestIsUnique(parts: seq<Part>, width: nat, l: nat, l': nat)
    requires Mildest(parts, width, l) && Mildest(parts, width, l')
    ensures l == l'
  {
  }

  /** The loop: it ends, with the column widths of the mildest limit. */
  method Determine(parts: seq<Part>, width: nat) returns (widths: seq<nat>, last: nat, left: nat, ghost limit: nat)
    ensures last == LastColumn(parts) && Mildest(parts, width, limit)
    ensures |widths| == 8 && forall c :: 0 <= c < 8 ==> widths[c] == ColWidth(parts, limit, c)
    ensures left == LeftWidth(parts, limit, last) == Sum(widths[..last]) <= width
  {
    var buf := new nat[COLUMNS](_ => 0);
    var threshold: nat := START;
    while true
      invariant threshold <= START
      invariant forall l :: threshold < l <= START ==> LeftWidth(parts, l, LastColumn(parts)) > width
      decreases threshold
    {
      limit := threshold;
      last := Pass(parts, threshold, buf);
      left, threshold := Measure(buf, last, parts, limit);
      if left <= width {
        LeftIsSum(buf[..], parts, limit, last);
        return buf[..], last, left, limit;
      }
      WidestFalls(parts, limit, last);
      forall l | threshold < l <= START
        ensures LeftWidth(parts, l, last) > width
      {
        if l <= limit {
          SameLeft(parts, limit, l, last);
        }
      }
    }
  }
}
