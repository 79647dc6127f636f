/** `Parser::workhorse`: one pass over an argument vector, reordering it in place. */
module ArgParser {
  import opened Wrappers
  import opened ArgSpec
  import opened ArgTheorems
  import opened ArgReparse

  // ----- strings -----

  /** `streq`. */
  method StrEq(a: string, b: string) returns (r: bool)
    ensures r <==> NameMatches(a, b)
  {
    var i := 0;
    while i < |a|
      invariant i <= |a| && i <= |b| && a[..i] == b[..i]
    {
      if i == |b| || a[i] != b[i] {
        return false;
      }
      i := i + 1;
    }
    return i == |b| || b[i] == '=';
  }

  lemma CommonIs(a: string, b: string, k: nat)
    requires k <= |a| && k <= |b| && a[..k] == b[..k] && (k < |a| && k < |b| ==> a[k] != b[k])
    ensures Common(a, b) == k
  {
    var c := Common(a, b);
    assert forall j :: 0 <= j < k ==> a[..k][j] == b[..k][j];
    assert forall j :: 0 <= j < c ==> a[..c][j] == b[..c][j];
  }

  /** `streqabbr`. */
  method StrEqAbbr(a: string, b: string, min: int) returns (r: bool)
    ensures r <==> AbbrMatches(a, b, min)
  {
    var i := 0;
    while i < |a| && i < |b| && a[i] == b[i]
      invariant i <= |a| && i <= |b| && a[..i] == b[..i]
    {
      i := i + 1;
    }
    CommonIs(a, b, i);
    return (i == |a| || (min > 0 && i >= min)) && (i == |b| || b[i] == '=');
  }

  /** `instr`. */
  method InStr(c: char, s: string) returns (r: bool)
    ensures r <==> c in s
  {
    var i := 0;
    while i < |s| && s[i] != c
      invariant i <= |s| && c !in s[..i]
    {
      i := i + 1;
    }
    assert s == s[..i] + s[i..];
    return i < |s|;
  }

  lemma FirstIs(us: seq<Descriptor>, i: nat, p: Descriptor -> bool, r: nat)
    requires i <= r <= |us| && (r < |us| ==> p(us[r])) && forall j :: i <= j < r ==> !p(us[j])
    ensures First(us, i, p) == r
  {
  }

  // ----- the usage table -----

  method FindExact(cfg: Config, name: string) returns (i: nat)
    ensures i == First(cfg.usage, 0, Exact(name))
  {
    i := 0;
    while i < |cfg.usage|
      invariant i <= |cfg.usage| && forall j :: 0 <= j < i ==> !Exact(name)(cfg.usage[j])
    {
      var eq := StrEq(cfg.usage[i].long, name);
      if eq {
        break;
      }
      i := i + 1;
    }
    FirstIs(cfg.usage, 0, Exact(name), i);
  }

  method FindAbbreviated(cfg: Config, name: string, from: nat) returns (i: nat)
    requires from <= |cfg.usage|
    ensures i == First(cfg.usage, from, Abbreviated(name, cfg.minAbbr))
  {
    i := from;
    while i < |cfg.usage|
      invariant from <= i <= |cfg.usage| && forall j :: from <= j < i ==> !Abbreviated(name, cfg.minAbbr)(cfg.usage[j])
    {
      var eq := StrEqAbbr(cfg.usage[i].long, name, cfg.minAbbr);
      if eq {
        break;
      }
      i := i + 1;
    }
    FirstIs(cfg.usage, from, Abbreviated(name, cfg.minAbbr), i);
  }

  method FindLong(cfg: Config, name: string) returns (i: nat)
    ensures i == LongIndex(cfg, name)
  {
    i := FindExact(cfg, name);
    if i == |cfg.usage| && cfg.minAbbr > 0 {
      var i1 := FindAbbreviated(cfg, name, 0);
      if i1 < |cfg.usage| {
        var i2 := FindAbbreviated(cfg, name, i1 + 1);
        if i2 == |cfg.usage| {
          i := i1;
        }
      }
    }
  }

  method FindShort(cfg: Config, c: char) returns (i: nat)
    ensures i == First(cfg.usage, 0, Short(c))
  {
    i := 0;
    while i < |cfg.usage|
      invariant i <= |cfg.usage| && forall j :: 0 <= j < i ==> !Short(c)(cfg.usage[j])
    {
      var there := InStr(c, cfg.usage[i].short);
      if there {
        break;
      }
      i := i + 1;
    }
    FirstIs(cfg.usage, 0, Short(c), i);
  }

  /** The descriptor for a match, or the dummy entry if there was none. */
  method Choose(cfg: Config, i: nat) returns (r: Option<nat>)
    ensures r == Chosen(cfg, i)
  {
    if i < |cfg.usage| {
      return Some(i);
    }
    var d := 0;
    while d < |cfg.usage| && !(cfg.usage[d].short == "" && cfg.usage[d].long == "")
      invariant d <= |cfg.usage| && forall j :: 0 <= j < d ==> !Dummy()(cfg.usage[j])
    {
      d := d + 1;
    }
    FirstIs(cfg.usage, 0, Dummy(), d);
    return if d < |cfg.usage| then Some(d) else None;
  }

  // ----- one word -----

  /** The options an action accepts of those offered: all, or as many as it has room for. */
  function Accepted(opts: seq<Opt>, room: nat): seq<Opt> { if |opts| <= room then opts else opts[..room] }

  method FindAttached(name: string) returns (r: Option<string>)
    ensures r == Attached(name)
  {
    var i := 0;
    while i < |name| && name[i] != '='
      invariant i <= |name| && forall j :: 0 <= j < i ==> name[j] != '='
    {
      i := i + 1;
    }
    r := if i < |name| then Some(name[i + 1..]) else None;
  }

  /** What a loop over a word does with it, behind the options `seen` before. */
  ghost predicate Outcome(g: Group, seen: seq<Opt>, room: nat, ok: bool, opts: seq<Opt>, consumed: bool) {
    && (ok <==> g.Parsed? && |seen + g.opts| <= room)
    && opts == Accepted(seen + g.opts, room) && (ok ==> consumed == g.consumed)
  }

  /** Checks one option and hands it to the action. */
  method Handle(cfg: Config, i: nat, name: string, attached: Option<string>, next: Option<string>, seen: seq<Opt>, room: nat)
    returns (ok: bool, opts: seq<Opt>, took: bool, consumed: bool)
    requires |seen| <= room
    ensures var s := One(cfg, Chosen(cfg, i), name, attached, next);
            && (ok <==> s.Skip? || (!s.Bad? && |seen| < room))
            && opts == (if ok && !s.Skip? then seen + [s.opt] else seen)
            && (ok ==> took == s.Took? && consumed == (s.Took? && s.usesNext))
  {
    hide Chosen;
    ok, opts, took, consumed := true, seen, false, false;
    var d := Choose(cfg, i);
    if d.Some? {
      var arg := if attached.Some? then attached else next;
      var o := Opt(d.value, name, arg);
      match cfg.check(d.value, name, arg) {
        case ArgIllegal =>
          return false, opts, took, consumed;
        case ArgOk =>
          took, consumed := true, attached.None? && next.Some?;
        case _ =>
          o := o.(arg := None);
      }
      if |opts| == room {
        return false, opts, took, consumed;
      }
      opts := opts + [o];
    }
  }

  method LongOption(cfg: Config, w: string, i: nat, name: string, next: Option<string>, seen: seq<Opt>, room: nat)
    returns (ok: bool, opts: seq<Opt>, consumed: bool)
    requires |seen| <= room && i == LongIndex(cfg, name)
    ensures Outcome(LongGroup(cfg, w, name, next), seen, room, ok, opts, consumed)
  {
    hide LongIndex, Chosen, One, Attached;
    var attached := FindAttached(name);
    var took;
    ok, opts, took, consumed := Handle(cfg, i, w, attached, next, seen, room);
  }

  /** The options still to come after `mine`, when the action is full. */
  lemma NoRoom(seen: seq<Opt>, mine: seq<Opt>, o: Opt, rest: seq<Opt>, room: nat)
    requires |seen + mine| == room
    ensures Accepted(seen + (mine + ([o] + rest)), room) == seen + mine && |seen + (mine + ([o] + rest))| > room
  {
  }

  /** One short option, seen from the group it starts. */
  function ShortSingle(cfg: Config, w: string, p: nat, next: Option<string>): Single
    requires p < |w|
  {
    One(cfg, Chosen(cfg, First(cfg.usage, 0, Short(w[p]))), w[p..], if p + 1 < |w| then Some(w[p + 1..]) else None, next)
  }

  lemma ShortStep(cfg: Config, w: string, p: nat, next: Option<string>, mine: seq<Opt>)
    requires p < |w|
    ensures var s, g, tail := ShortSingle(cfg, w, p, next), After(mine, ShortGroup(cfg, w, p, next)), ShortGroup(cfg, w, p + 1, next);
            match s
            case Skip => g == After(mine, tail)
            case Bad => g == Fatal(mine)
            case Took(o, u) => g == Parsed(mine + [o], u)
            case Plain(o) => g == After(mine + [o], tail)
  {
    hide One, Chosen, First;
  }

  /** The loop over the short options of a word. */
  method ShortOptions(cfg: Config, w: string, next: Option<string>, seen: seq<Opt>, room: nat)
    returns (ok: bool, opts: seq<Opt>, consumed: bool)
    requires |seen| <= room && |w| >= 2
    ensures Outcome(ShortGroup(cfg, w, 1, next), seen, room, ok, opts, consumed)
  {
    hide One, Chosen, First, ShortGroup, Accepted, Outcome, After;
    ok, opts, consumed := true, seen, false;
    var p, took := 1, false;
    ghost var g := ShortGroup(cfg, w, 1, next);
    ghost var mine: seq<Opt> := [];
    NothingYet(g, seen);
    while !took && p < |w|
      invariant 1 <= p <= |w| && opts == seen + mine && |opts| <= room && (!took ==> !consumed)
      invariant if took then g == Parsed(mine, consumed) else g == After(mine, ShortGroup(cfg, w, p, next))
      decreases !took, |w| - p
    {
      ShortStep(cfg, w, p, next, mine);
      ghost var s := ShortSingle(cfg, w, p, next);
      var i := FindShort(cfg, w[p]);
      ok, opts, took, consumed := Handle(cfg, i, w[p..], if p + 1 < |w| then Some(w[p + 1..]) else None, next, opts, room);
      if !ok {
        StopsHere(g, s, mine, ShortGroup(cfg, w, p + 1, next), seen, room);
        return;
      }
      if !s.Skip? {
        mine := mine + [s.opt];
      }
      p := p + 1;
    }
    EndsHere(cfg, w, p, next, mine, seen, room);
  }

  lemma EndsHere(cfg: Config, w: string, p: nat, next: Option<string>, mine: seq<Opt>, seen: seq<Opt>, room: nat)
    requires |seen + mine| <= room
    ensures p >= |w| ==> After(mine, ShortGroup(cfg, w, p, next)) == Parsed(mine, false)
    ensures forall c :: Outcome(Parsed(mine, c), seen, room, true, seen + mine, c)
  {
  }

  lemma NothingYet(g: Group, seen: seq<Opt>)
    ensures After([], g) == g && seen + [] == seen
  {
  }

  /** A loop that stops early has offered all the options the action accepts. */
  lemma StopsHere(g: Group, s: Single, mine: seq<Opt>, tail: Group, seen: seq<Opt>, room: nat)
    requires |seen + mine| <= room && !s.Skip?
    requires match s
             case Skip => true
             case Bad => g == Fatal(mine)
             case Took(o, u) => g == Parsed(mine + [o], u) && |seen + mine| == room
             case Plain(o) => g == After(mine + [o], tail) && |seen + mine| == room
    ensures Outcome(g, seen, room, false, seen + mine, false) && Outcome(g, seen, room, false, seen + mine, true)
  {
    if !s.Bad? {
      NoRoom(seen, mine, s.opt, if s.Took? then [] else tail.opts, room);
      assert g.opts == mine + ([s.opt] + if s.Took? then [] else tail.opts);
    }
  }

  method ParseWord(cfg: Config, w: string, next: Option<string>, seen: seq<Opt>, room: nat)
    returns (ok: bool, opts: seq<Opt>, consumed: bool)
    requires IsOption(w) && |seen| <= room
    ensures Outcome(WordGroup(cfg, w, next), seen, room, ok, opts, consumed)
  {
    hide LongIndex, LongGroup, ShortGroup, Outcome;
    if w[1] == '-' {
      var i := FindLong(cfg, w[2..]);
      ok, opts, consumed := LongOption(cfg, w, i, w[2..], next, seen, room);
      return;
    }
    if cfg.singleMinus {
      var i := FindLong(cfg, w[1..]);
      if i < |cfg.usage| {
        ok, opts, consumed := LongOption(cfg, w, i, w[1..], next, seen, room);
        return;
      }
    }
    ok, opts, consumed := ShortOptions(cfg, w, next, seen, room);
  }

  // ----- the whole vector -----

  /** `shift`: the word at `at` moves in front of the `count` words before it. */
  method Shift(a: array<string>, at: nat, count: nat)
    requires count <= at < a.Length
    modifies a
    ensures a[..] == old(a[..at - count]) + [old(a[at])] + old(a[at - count..at]) + old(a[at + 1..])
  {
    var j := 0;
    while j < count
      invariant j <= count && a[at - j] == old(a[at])
      invariant forall k :: 0 <= k < at - j || at < k < a.Length ==> a[k] == old(a[k])
      invariant forall k :: at - j < k <= at ==> a[k] == old(a[k - 1])
    {
      a[at - j], a[at - j - 1] := a[at - j - 1], a[at - j];
      j := j + 1;
    }
  }

  /** The vector during a pass: the option part so far, the other words so far, the rest. */
  ghost predicate Arranged(a: array<string>, front: seq<string>, non: seq<string>, orig: seq<string>, i: nat)
    reads a
  {
    i <= |orig| == a.Length && |front| + |non| == i && a[..] == front + non + orig[i..]
  }

  lemma ArrangedAt(a: array<string>, front: seq<string>, non: seq<string>, orig: seq<string>, i: nat)
    requires Arranged(a, front, non, orig, i)
    ensures i <= |orig| == a.Length && |front| + |non| == i && forall k :: i <= k < a.Length ==> a[k] == orig[k]
    ensures a[..] == front + (non + orig[i..])
    ensures i < a.Length ==> Arranged(a, front, non + [orig[i]], orig, i + 1)
  {
    assert front + non + orig[i..] == front + (non + orig[i..]);
    if i < a.Length {
      assert orig[i..] == [orig[i]] + orig[i + 1..];
      assert front + non + orig[i..] == front + (non + [orig[i]]) + orig[i + 1..];
    }
    forall k | i <= k < a.Length
      ensures a[k] == orig[k]
    {
      assert a[k] == a[..][k] == orig[i..][k - i];
    }
  }

  /** Moves the next word to the option part. */
  method Forward(a: array<string>, i: nat, ghost front: seq<string>, ghost non: seq<string>, nonops: nat, ghost orig: seq<string>)
    requires Arranged(a, front, non, orig, i) && i < a.Length && nonops == |non|
    modifies a
    ensures Arranged(a, front + [orig[i]], non, orig, i + 1)
  {
    ArrangedAt(a, front, non, orig, i);
    ghost var s := a[..];
    assert s[..i - nonops] == front && s[i - nonops..i] == non && s[i + 1..] == orig[i + 1..];
    Shift(a, i, nonops);
  }

  lemma ScanWordResult(cfg: Config, gnu: bool, orig: seq<string>, i: nat, front: seq<string>, opts: seq<Opt>, non: seq<string>)
    requires i < |orig| && IsOption(orig[i]) && !IsEnd(orig[i])
    ensures var g := WordGroup(cfg, orig[i], NextOf(orig[i..]));
            match g
            case Fatal(os) => Then(front, opts, non, Scan(cfg, gnu, orig[i..])) == Failed(opts + os)
            case Parsed(os, c) =>
              var k := if c then 2 else 1;
              && i + k <= |orig|
              && Then(front, opts, non, Scan(cfg, gnu, orig[i..])) ==
                 Then(front + orig[i..i + k], opts + os, non, Scan(cfg, gnu, orig[i + k..]))
  {
    hide WordGroup;
    var args := orig[i..];
    var g := WordGroup(cfg, args[0], NextOf(args));
    if g.Parsed? {
      ScanWord(cfg, gnu, args);
      var k := Taken(cfg, args);
      assert args[k..] == orig[i + k..] && args[..k] == orig[i..i + k];
      hide Scan;
      ThenThen(front, opts, non, args[..k], g.opts, Scan(cfg, gnu, args[k..]));
    }
  }

  lemma ThenThen(front: seq<string>, opts: seq<Opt>, non: seq<string>, f: seq<string>, os: seq<Opt>, r: Scanned)
    ensures Then(front, opts, non, Then(f, os, [], r)) == Then(front + f, opts + os, non, r)
  {
    match r
    case Failed(x) => assert opts + (os + x) == opts + os + x;
    case Done(x, y, z) =>
      assert front + (f + x) == front + f + x && opts + (os + y) == opts + os + y && [] + z == z;
  }

  /** If no more options are accepted, the pass as a whole offered too many. */
  lemma RunOut(opts: seq<Opt>, g: Group, room: nat, front: seq<string>, non: seq<string>, r: Scanned)
    requires |opts + g.opts| > room
    ensures var all := Then(front, opts + g.opts, non, r).opts;
            |all| > room && Accepted(all, room) == Accepted(opts + g.opts, room)
  {
    assert Then(front, opts + g.opts, non, r).opts == opts + g.opts + r.opts;
  }

  ghost predicate Result(r: Scanned, room: nat, ok: bool, opts: seq<Opt>) {
    (ok <==> r.Done? && |r.opts| <= room) && opts == Accepted(r.opts, room)
  }

  /** One option word, with its separate argument if it takes one. */
  method PassWord(cfg: Config, gnu: bool, a: array<string>, i: nat, seen: seq<Opt>, nonops: nat, room: nat,
                  ghost front: seq<string>, ghost non: seq<string>, ghost orig: seq<string>)
    returns (ok: bool, opts: seq<Opt>, i': nat, ghost front': seq<string>)
    requires Arranged(a, front, non, orig, i) && i < a.Length && nonops == |non| && |seen| <= room
    requires IsOption(orig[i]) && !IsEnd(orig[i])
    modifies a
    ensures var r := Then(front, seen, non, Scan(cfg, gnu, orig[i..]));
            if ok then
              && i < i' <= a.Length && Arranged(a, front', non, orig, i') && |opts| <= room
              && r == Then(front', opts, non, Scan(cfg, gnu, orig[i'..]))
            else Result(r, room, false, opts)
  {
    hide WordGroup, Scan, Arranged;
    ArrangedAt(a, front, non, orig, i);
    ScanWordResult(cfg, gnu, orig, i, front, seen, non);
    var next := if i + 1 < a.Length then Some(a[i + 1]) else None;
    assert next == NextOf(orig[i..]);
    ghost var g := WordGroup(cfg, orig[i], next);
    var consumed;
    ok, opts, consumed := ParseWord(cfg, a[i], next, seen, room);
    if !ok {
      ghost var k := if g.Parsed? && g.consumed then 2 else 1;
      if |seen + g.opts| > room && g.Parsed? {
        RunOut(seen, g, room, front + orig[i..i + k], non, Scan(cfg, gnu, orig[i + k..]));
      }
      return ok, opts, i, front;
    }
    i', front' := Advance(a, i, consumed, nonops, front, non, orig);
  }

  /** Moves a word, and its separate argument if `two`, to the option part. */
  method Advance(a: array<string>, i: nat, two: bool, nonops: nat, ghost front: seq<string>, ghost non: seq<string>, ghost orig: seq<string>)
    returns (i': nat, ghost front': seq<string>)
    requires Arranged(a, front, non, orig, i) && i + (if two then 2 else 1) <= a.Length && nonops == |non|
    modifies a
    ensures i' == i + (if two then 2 else 1) && i' <= |orig| && front' == front + orig[i..i'] && Arranged(a, front', non, orig, i')
  {
    hide Arranged;
    ArrangedAt(a, front, non, orig, i);
    Forward(a, i, front, non, nonops, orig);
    OneWord(front, orig, i);
    i', front' := i + 1, front + orig[i..i + 1];
    if two {
      Forward(a, i', front', non, nonops, orig);
      TwoWords(front, orig, i);
      i', front' := i + 2, front + orig[i..i + 2];
    }
  }

  lemma OneWord(front: seq<string>, orig: seq<string>, i: nat)
    requires i < |orig|
    ensures front + [orig[i]] == front + orig[i..i + 1]
  {
  }

  lemma TwoWords(front: seq<string>, orig: seq<string>, i: nat)
    requires i + 1 < |orig|
    ensures front + orig[i..i + 1] + [orig[i + 1]] == front + orig[i..i + 2]
  {
  }

  lemma EndOfOptions(cfg: Config, gnu: bool, orig: seq<string>, i: nat, front: seq<string>, opts: seq<Opt>, non: seq<string>)
    requires i <= |orig|
    ensures var r := Then(front, opts, non, Scan(cfg, gnu, orig[i..]));
            && (i == |orig| || (!IsOption(orig[i]) && !gnu) ==> r == Done(front, opts, non + orig[i..]))
            && (i < |orig| && IsEnd(orig[i]) ==> r == Done(front + [orig[i]], opts, non + orig[i + 1..]))
            && (i < |orig| && !IsOption(orig[i]) && gnu ==> r == Then(front, opts, non + [orig[i]], Scan(cfg, gnu, orig[i + 1..])))
  {
    hide WordGroup;
    if i < |orig| {
      assert orig[i..][1..] == orig[i + 1..];
      if !IsOption(orig[i]) && gnu {
        var r := Scan(cfg, gnu, orig[i + 1..]);
        if r.Done? {
          assert non + ([orig[i]] + r.rest) == non + [orig[i]] + r.rest;
        }
      }
    }
  }

  lemma StartOfPass(a: array<string>, r: Scanned)
    ensures Arranged(a, [], [], a[..], 0) && a[..][0..] == a[..] && Then([], [], [], r) == r
  {
    if r.Done? {
      assert [] + r.front == r.front && [] + r.opts == r.opts && [] + r.rest == r.rest;
    }
  }

  lemma DoneResult(front: seq<string>, opts: seq<Opt>, rest: seq<string>, room: nat)
    requires |opts| <= room
    ensures Result(Done(front, opts, rest), room, true, opts)
  {
  }

  /** `Parser::workhorse`, with an action that accepts `room` options. */
  method Workhorse(cfg: Config, gnu: bool, a: array<string>, room: nat) returns (ok: bool, opts: seq<Opt>, first: nat)
    modifies a
    ensures Result(Scan(cfg, gnu, old(a[..])), room, ok, opts)
    ensures ok ==> var r := Scan(cfg, gnu, old(a[..])); a[..] == r.front + r.rest && first == |r.front|
  {
    hide Scan, WordGroup, Arranged, Then, Result;
    var i, nonops := 0, 0;
    opts := [];
    ghost var orig, front, non: seq<string> := a[..], [], [];
    ghost var all := Scan(cfg, gnu, orig);
    StartOfPass(a, all);
    while i < a.Length
      invariant i <= a.Length && Arranged(a, front, non, orig, i) && nonops == |non| && |opts| <= room
      invariant Then(front, opts, non, Scan(cfg, gnu, orig[i..])) == all
      decreases a.Length - i
    {
      ArrangedAt(a, front, non, orig, i);
      EndOfOptions(cfg, gnu, orig, i, front, opts, non);
      var w := a[i];
      if !IsOption(w) {
        if gnu {
          i, nonops, non := i + 1, nonops + 1, non + [w];
          continue;
        }
        DoneResult(front, opts, non + orig[i..], room);
        return true, opts, i - nonops;
      }
      if w == "--" {
        Forward(a, i, front, non, nonops, orig);
        ArrangedAt(a, front + [orig[i]], non, orig, i + 1);
        DoneResult(front + [orig[i]], opts, non + orig[i + 1..], room);
        return true, opts, i + 1 - nonops;
      }
      ok, opts, i, front := PassWord(cfg, gnu, a, i, opts, nonops, room, front, non, orig);
      if !ok {
        return ok, opts, 0;
      }
    }
    ArrangedAt(a, front, non, orig, i);
    EndOfOptions(cfg, gnu, orig, i, front, opts, non);
    DoneResult(front, opts, non + orig[i..], room);
    return true, opts, i - nonops;
  }

  // ----- sizing and storing -----

  /** Every option refers to an entry of the usage table. */
  ghost predicate InTable(cfg: Config, opts: seq<Opt>) { forall i :: 0 <= i < |opts| ==> opts[i].desc < |cfg.usage| }

  lemma {:induction false} ShortInTable(cfg: Config, w: string, p: nat, next: Option<string>)
    ensures InTable(cfg, ShortGroup(cfg, w, p, next).opts)
    decreases |w| - p
  {
    hide First;
    if p < |w| {
      ShortInTable(cfg, w, p + 1, next);
    }
  }

  lemma WordInTable(cfg: Config, w: string, next: Option<string>)
    requires IsOption(w)
    ensures InTable(cfg, WordGroup(cfg, w, next).opts)
  {
    hide ShortGroup, LongIndex, First;
    ShortInTable(cfg, w, 1, next);
  }

  lemma {:induction false} ScanInTable(cfg: Config, gnu: bool, args: seq<string>)
    ensures InTable(cfg, Scan(cfg, gnu, args).opts)
    decreases |args|
  {
    hide WordGroup;
    if args != [] {
      if !IsOption(args[0]) {
        if gnu {
          ScanInTable(cfg, gnu, args[1..]);
        }
      } else if !IsEnd(args[0]) {
        WordInTable(cfg, args[0], NextOf(args));
        ScanInTable(cfg, gnu, args[Taken(cfg, args)..]);
      }
    }
  }

  /** The size of the options array: room for every index, and one more as a sentinel. */
  method OptionsMax(us: seq<Descriptor>, start: nat) returns (m: nat)
    ensures m >= start && forall i :: 0 <= i < |us| ==> us[i].index + 1 < m
    ensures m == start || exists i :: 0 <= i < |us| && m == us[i].index + 2
  {
    m := start;
    for i := 0 to |us|
      invariant m >= start && forall j :: 0 <= j < i ==> us[j].index + 1 < m
      invariant m == start || exists j :: 0 <= j < i && m == us[j].index + 2
    {
      if us[i].index + 1 >= m {
        m := us[i].index + 1 + 1;
      }
    }
  }

  /** `Stats::add`: the buffer size grows by one for each option counted. */
  method StatsAdd(cfg: Config, gnu: bool, a: array<string>, bufferMax: nat, optionsMax: nat) returns (bufferMax': nat, optionsMax': nat, ok: bool)
    requires bufferMax <= INT_MAX
    modifies a
    ensures optionsMax' >= optionsMax && forall i :: 0 <= i < |cfg.usage| ==> cfg.usage[i].index + 1 < optionsMax'
    ensures var r := Scan(cfg, gnu, old(a[..]));
            && bufferMax' == bufferMax + |Accepted(r.opts, INT_MAX - bufferMax)|
            && (ok <==> r.Done? && |r.opts| <= INT_MAX - bufferMax) && (ok ==> a[..] == r.front + r.rest)
  {
    optionsMax' := OptionsMax(cfg.usage, optionsMax);
    var opts, first;
    ok, opts, first := Workhorse(cfg, gnu, a, INT_MAX - bufferMax);
    bufferMax' := bufferMax + |opts|;
  }

  /** Sizing in GNU mode and then storing, in any mode, as a program does.  The second pass scans
      the reordered vector; for settled checkers it stores exactly the options the first one
      counted.  Every list index is in range. */
  method SizeThenParse(cfg: Config, gnu: bool, a: array<string>)
    returns (sized: bool, bufferMax: nat, optionsMax: nat, ok: bool, opts: seq<Opt>, first: nat)
    modifies a
    ensures var r := Scan(cfg, true, old(a[..]));
            && (sized <==> r.Done? && |r.opts| <= INT_MAX - 1)
            && (sized ==> |r.opts| == bufferMax - 1 && Result(Scan(cfg, gnu, r.front + r.rest), INT_MAX, ok, opts))
            && (sized && Settled(cfg) ==> ok && opts == r.opts && a[..] == r.front + r.rest && first == |r.front|)
    ensures forall i :: 0 <= i < |cfg.usage| ==> cfg.usage[i].index + 1 < optionsMax
    ensures sized ==> forall i :: 0 <= i < |opts| ==> opts[i].desc < |cfg.usage| && cfg.usage[opts[i].desc].index < optionsMax
  {
    hide Scan, Settled;
    ghost var args := a[..];
    bufferMax, optionsMax, sized := StatsAdd(cfg, true, a, 1, 1);
    if !sized {
      ok, opts, first := false, [], 0;
      return;
    }
    if Settled(cfg) {
      SettledRepeats(cfg);
    }
    ghost var r := Scan(cfg, true, args);
    assert Settled(cfg) ==> Scan(cfg, gnu, r.front + r.rest) == r;
    ScanInTable(cfg, gnu, r.front + r.rest);
    ok, opts, first := Workhorse(cfg, gnu, a, INT_MAX);
  }
}
