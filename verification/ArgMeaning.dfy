/** What a pass reports: which descriptor a word is matched with, and what its argument is. */
module ArgMeaning {
  import opened Wrappers
  import opened ArgSpec
  import opened ArgTheorems
  import opened ArgReparse

  // ----- words -----

  /** A lone minus and words without one are plain, two minuses are the end mark. */
  lemma WordKinds(w: string)
    ensures IsOption(w) <==> |w| >= 2 && w[0] == '-'
    ensures !IsOption("") && !IsOption("-") && !IsOption("file") && IsOption("-f") && IsOption("--") && IsEnd(w) <==> w == "--"
  {
  }

  // ----- names -----

  lemma IndexIs(c: char, s: string, k: nat)
    requires k <= |s| && c !in s[..k] && (k < |s| ==> s[k] == c)
    ensures IndexOf(c, s) == k
  {
    assert forall j :: 0 <= j < k ==> s[j] == s[..k][j] && s[j] in s[..k];
  }

  /** The argument is what follows the first equals sign, without it. */
  lemma AttachedIs(n: string, v: string)
    requires '=' !in n
    ensures Attached(n + "=" + v) == Some(v) && Attached(n) == None
  {
    var s := n + "=" + v;
    assert s[..|n|] == n && s[|n|] == '=' && s[|n| + 1..] == v;
    IndexIs('=', s, |n|);
    assert n[..|n|] == n;
    IndexIs('=', n, |n|);
  }

  /** The name in a long option word: what precedes the first equals sign. */
  function BaseName(b: string): string { b[..IndexOf('=', b)] }

  /** An exact match is equality with that name. */
  lemma MatchesExactly(a: string, b: string)
    requires '=' !in a
    ensures NameMatches(a, b) <==> a == BaseName(b)
  {
    if NameMatches(a, b) {
      assert b[..|a|] == a;
      IndexIs('=', b, |a|);
    }
  }

  /** An abbreviation is a prefix of at least the minimal length, if there is one. */
  lemma MatchesAbbreviated(a: string, b: string, min: int)
    requires '=' !in a
    ensures AbbrMatches(a, b, min) <==> a == BaseName(b) || (min > 0 && |BaseName(b)| >= min && BaseName(b) <= a)
  {
    if AbbrMatches(a, b, min) {
      var k := Common(a, b);
      assert '=' !in a[..k];
      IndexIs('=', b, k);
    } else if BaseName(b) <= a {
      CommonIsBase(a, b);
    }
  }

  lemma CommonIsBase(a: string, b: string)
    requires '=' !in a && BaseName(b) <= a
    ensures Common(a, b) == IndexOf('=', b)
  {
    var k, e := Common(a, b), IndexOf('=', b);
    assert forall j :: 0 <= j < e ==> b[..e][j] == a[j];
    assert forall j :: 0 <= j < k ==> a[..k][j] == b[..k][j];
    assert forall j :: 0 <= j < |a| ==> a[j] in a;
  }

  // ----- the table -----

  /** Long names hold no equals sign. */
  predicate ProperNames(us: seq<Descriptor>) { forall i :: 0 <= i < |us| ==> '=' !in us[i].long }

  lemma FirstIsLeast(us: seq<Descriptor>, i: nat, p: Descriptor -> bool, r: nat)
    requires i <= r <= |us| && (r < |us| ==> p(us[r])) && forall j :: i <= j < r ==> !p(us[j])
    ensures First(us, i, p) == r
  {
  }

  /** A long name in the table is found by its first entry, whatever is attached to it. */
  lemma ExactFound(cfg: Config, b: string, i: nat)
    requires ProperNames(cfg.usage) && i < |cfg.usage| && cfg.usage[i].long == BaseName(b)
    requires forall j :: 0 <= j < i ==> cfg.usage[j].long != BaseName(b)
    ensures LongIndex(cfg, b) == i
  {
    var us := cfg.usage;
    forall j | 0 <= j <= i
      ensures Exact(b)(us[j]) <==> us[j].long == BaseName(b)
    {
      MatchesExactly(us[j].long, b);
    }
    FirstIsLeast(us, 0, Exact(b), i);
  }

  /** Entry `j` can be abbreviated to the name. */
  predicate AbbreviatedBy(us: seq<Descriptor>, j: nat, b: string, min: int) {
    j < |us| && min > 0 && |BaseName(b)| >= min && BaseName(b) <= us[j].long
  }

  /** A name that is not in the table stands for the one entry it abbreviates; if there are two, or
      none, or abbreviations are off, it stands for nothing. */
  lemma NotExact(cfg: Config, b: string, i: nat)
    requires ProperNames(cfg.usage) && forall j :: 0 <= j < |cfg.usage| ==> cfg.usage[j].long != BaseName(b)
    requires i < |cfg.usage|
    ensures LongIndex(cfg, b) == i <==>
            AbbreviatedBy(cfg.usage, i, b, cfg.minAbbr) && forall j :: 0 <= j < |cfg.usage| && j != i ==> !AbbreviatedBy(cfg.usage, j, b, cfg.minAbbr)
  {
    var us := cfg.usage;
    forall j | 0 <= j < |us|
      ensures !Exact(b)(us[j]) && (cfg.minAbbr > 0 ==> (Abbreviated(b, cfg.minAbbr)(us[j]) <==> AbbreviatedBy(us, j, b, cfg.minAbbr)))
    {
      MatchesExactly(us[j].long, b);
      MatchesAbbreviated(us[j].long, b, cfg.minAbbr);
    }
    FirstIsLeast(us, 0, Exact(b), |us|);
  }

  /** Two entries that fit make an abbreviation ambiguous: no match. */
  lemma AmbiguousMatchesNothing(cfg: Config, b: string, i: nat, j: nat)
    requires ProperNames(cfg.usage) && forall k :: 0 <= k < |cfg.usage| ==> cfg.usage[k].long != BaseName(b)
    requires i < j < |cfg.usage| && AbbreviatedBy(cfg.usage, i, b, cfg.minAbbr) && AbbreviatedBy(cfg.usage, j, b, cfg.minAbbr)
    ensures LongIndex(cfg, b) == |cfg.usage|
  {
    hide LongIndex, AbbreviatedBy, BaseName, ProperNames;
    var r := LongIndex(cfg, b);
    if r < |cfg.usage| {
      NotExact(cfg, b, r);
    }
  }

  /** What matches nothing goes to the first entry without any name, or is passed over. */
  lemma UnknownGoesToDummy(cfg: Config)
    ensures match Chosen(cfg, |cfg.usage|)
            case None => forall j :: 0 <= j < |cfg.usage| ==> !(cfg.usage[j].short == "" && cfg.usage[j].long == "")
            case Some(d) => cfg.usage[d].short == "" && cfg.usage[d].long == "" &&
                            forall j :: 0 <= j < d ==> !(cfg.usage[j].short == "" && cfg.usage[j].long == "")
    ensures forall i :: 0 <= i < |cfg.usage| ==> Chosen(cfg, i) == Some(i)
  {
    var d := First(cfg.usage, 0, Dummy());
    assert forall j :: 0 <= j < d ==> !Dummy()(cfg.usage[j]);
    assert d < |cfg.usage| ==> Dummy()(cfg.usage[d]);
  }

  // ----- one option on the command line -----

  /** What the pass reports for a single option with value `v`, by the checker's answer: taken with it,
      taken without, or fatal. */
  ghost predicate Reported(cfg: Config, args: seq<string>, k: nat, d: nat, name: string, v: string)
    requires 1 <= k <= |args|
  {
    var r := Scan(cfg, true, args);
    match cfg.check(d, name, Some(v))
    case ArgIllegal => r == Failed([])
    case ArgOk => r == Done(args[..k], [Opt(d, name, Some(v))], args[k..])
    case _ => r == Done(args[..1], [Opt(d, name, None)], args[1..])
  }

  lemma OneWordScan(cfg: Config, w: string, g: Group)
    requires IsOption(w) && !IsEnd(w) && WordGroup(cfg, w, None) == g
    ensures Scan(cfg, true, [w]) == if g.Fatal? then Failed(g.opts) else Done([w], g.opts, [])
  {
    hide WordGroup, IsOption, IsEnd;
    assert [w][1..] == [] && [w][..1] == [w];
  }

  lemma TwoWordScan(cfg: Config, w: string, v: string, g: Group)
    requires IsOption(w) && !IsEnd(w) && !IsOption(v) && WordGroup(cfg, w, Some(v)) == g
    ensures Scan(cfg, true, [w, v]) ==
            if g.Fatal? then Failed(g.opts) else if g.consumed then Done([w, v], g.opts, []) else Done([w], g.opts, [v])
  {
    hide WordGroup, IsOption, IsEnd;
    var args := [w, v];
    assert args[1..] == [v] && args[2..] == [] && args[..1] == [w] && args[..2] == args;
    ScanRest(cfg, true, [v]);
  }

  /** `--name=value`: the value is what follows the sign, in one word. */
  lemma LongAttached(cfg: Config, n: string, v: string, i: nat)
    requires '=' !in n && ProperNames(cfg.usage) && i < |cfg.usage| && cfg.usage[i].long == n && forall j :: 0 <= j < i ==> cfg.usage[j].long != n
    ensures var w := "--" + n + "=" + v; Reported(cfg, [w], 1, i, w, v)
  {
    var b := n + "=" + v;
    var w := "--" + n + "=" + v;
    assert w[2..] == b && w[0] == '-' && w[1] == '-' && |w| >= 3;
    AttachedIs(n, v);
    assert b[..|n|] == n && b[|n|] == '=';
    IndexIs('=', b, |n|);
    ExactFound(cfg, b, i);
    hide LongIndex, Attached;
    OneWordScan(cfg, w, WordGroup(cfg, w, None));
    assert [w][..1] == [w] && [w][1..] == [];
  }

  /** `--name value`: the value is the next word. */
  lemma LongSeparate(cfg: Config, n: string, v: string, i: nat)
    requires n != "" && '=' !in n && ProperNames(cfg.usage) && !IsOption(v)
    requires i < |cfg.usage| && cfg.usage[i].long == n && forall j :: 0 <= j < i ==> cfg.usage[j].long != n
    ensures var w := "--" + n; Reported(cfg, [w, v], 2, i, w, v)
  {
    var w := "--" + n;
    assert w[2..] == n && w[0] == '-' && w[1] == '-' && |w| >= 3;
    AttachedIs(n, v);
    assert n[..|n|] == n;
    IndexIs('=', n, |n|);
    ExactFound(cfg, n, i);
    hide LongIndex, Attached;
    TwoWordScan(cfg, w, v, WordGroup(cfg, w, Some(v)));
    assert [w, v][..2] == [w, v] && [w, v][2..] == [] && [w, v][..1] == [w] && [w, v][1..] == [v];
  }

  /** A long option that matches nothing is reported under the entry for unknown options, or not at
      all if there is none. */
  lemma LongUnknown(cfg: Config, n: string)
    requires n != "" && '=' !in n && LongIndex(cfg, n) == |cfg.usage|
    ensures var w := "--" + n;
            match Chosen(cfg, |cfg.usage|)
            case None => Scan(cfg, true, [w]) == Done([w], [], [])
            case Some(d) => Scan(cfg, true, [w]) == if cfg.check(d, w, None) == ArgIllegal then Failed([]) else Done([w], [Opt(d, w, None)], [])
  {
    var w := "--" + n;
    assert w[2..] == n && w[0] == '-' && w[1] == '-' && |w| >= 3;
    AttachedIs(n, "");
    hide LongIndex, Attached, Chosen;
    OneWordScan(cfg, w, WordGroup(cfg, w, None));
  }

  /** The entry a short option is found under. */
  ghost predicate ShortAt(cfg: Config, c: char, i: nat) {
    i < |cfg.usage| && c in cfg.usage[i].short && forall j :: 0 <= j < i ==> c !in cfg.usage[j].short
  }

  lemma ShortFound(cfg: Config, c: char, i: nat)
    requires ShortAt(cfg, c, i)
    ensures First(cfg.usage, 0, Short(c)) == i
  {
    FirstIsLeast(cfg.usage, 0, Short(c), i);
  }

  /** `-cvalue`: the value is the rest of the word, unless the option declines it, in which case the
      rest are further options. */
  lemma ShortAttached(cfg: Config, c: char, v: string, i: nat)
    requires c != '-' && v != "" && !cfg.singleMinus && ShortAt(cfg, c, i) && cfg.check(i, [c] + v, Some(v)) == ArgOk
    ensures var w := "-" + [c] + v; Scan(cfg, true, [w]) == Done([w], [Opt(i, [c] + v, Some(v))], [])
  {
    var w := "-" + [c] + v;
    assert w[1..] == [c] + v && w[2..] == v && w[0] == '-' && w[1] == c && |w| >= 3;
    ShortFound(cfg, c, i);
    OneWordScan(cfg, w, WordGroup(cfg, w, None));
  }

  /** `-c value`. */
  lemma ShortSeparate(cfg: Config, c: char, v: string, i: nat)
    requires c != '-' && !cfg.singleMinus && ShortAt(cfg, c, i) && !IsOption(v)
    ensures var w := "-" + [c]; Reported(cfg, [w, v], 2, i, [c], v)
  {
    var w := "-" + [c];
    assert w[1..] == [c] && w[0] == '-' && w[1] == c && |w| == 2;
    ShortFound(cfg, c, i);
    assert ShortGroup(cfg, w, 2, Some(v)) == Parsed([], false);
    TwoWordScan(cfg, w, v, WordGroup(cfg, w, Some(v)));
    assert [w, v][..2] == [w, v] && [w, v][2..] == [] && [w, v][..1] == [w] && [w, v][1..] == [v];
  }

  /** `-cd`, both without argument: two options, in order. */
  lemma ShortPair(cfg: Config, c: char, d: char, i: nat, j: nat)
    requires c != '-' && !cfg.singleMinus && ShortAt(cfg, c, i) && ShortAt(cfg, d, j)
    requires cfg.check(i, [c, d], Some([d])) == ArgNone && cfg.check(j, [d], None) == ArgNone
    ensures var w := "-" + [c] + [d]; Scan(cfg, true, [w]) == Done([w], [Opt(i, [c, d], None), Opt(j, [d], None)], [])
  {
    var w := "-" + [c] + [d];
    assert w[1..] == [c, d] && w[2..] == [d] && w[0] == '-' && w[1] == c && w[2] == d && |w| == 3;
    ShortFound(cfg, c, i);
    ShortFound(cfg, d, j);
    assert ShortGroup(cfg, w, 3, None) == Parsed([], false);
    assert ShortGroup(cfg, w, 2, None) == Parsed([Opt(j, [d], None)], false);
    assert ShortGroup(cfg, w, 1, None) == After([Opt(i, [c, d], None)], ShortGroup(cfg, w, 2, None));
    OneWordScan(cfg, w, WordGroup(cfg, w, None));
  }

  /** `-name` is a long option if those are allowed with one minus and it is one. */
  lemma SingleMinus(cfg: Config, n: string, i: nat)
    requires n != "" && n[0] != '-' && '=' !in n && ProperNames(cfg.usage)
    requires i < |cfg.usage| && cfg.usage[i].long == n && forall j :: 0 <= j < i ==> cfg.usage[j].long != n
    ensures cfg.singleMinus ==> WordGroup(cfg, "-" + n, None) == LongGroup(cfg, "-" + n, n, None)
    ensures !cfg.singleMinus ==> WordGroup(cfg, "-" + n, None) == ShortGroup(cfg, "-" + n, 1, None)
  {
    var w := "-" + n;
    assert w[1..] == n && w[0] == '-' && w[1] == n[0];
    assert n[..|n|] == n;
    IndexIs('=', n, |n|);
    ExactFound(cfg, n, i);
  }

  // ----- the remaining words -----

  predicate EndsMarked(front: seq<string>) { front != [] && IsEnd(front[|front| - 1]) }

  /** Unless it met the end mark, a GNU pass leaves only plain words. */
  lemma {:induction false} GnuRest(cfg: Config, args: seq<string>)
    requires Scan(cfg, true, args).Done? && !EndsMarked(Scan(cfg, true, args).front)
    ensures var r := Scan(cfg, true, args); forall i :: 0 <= i < |r.rest| ==> !IsOption(r.rest[i])
    decreases |args|
  {
    hide WordGroup, IsOption, IsEnd, Mask, Select;
    if args != [] {
      if !IsOption(args[0]) {
        var s := Scan(cfg, true, args[1..]);
        assert [] + s.front == s.front;
        GnuRest(cfg, args[1..]);
      } else if !IsEnd(args[0]) {
        PartitionWord(cfg, true, args);
        var k := Taken(cfg, args);
        hide Scan;
        ScanHead(cfg, args[k..]);
        var s := Scan(cfg, true, args[k..]);
        if s.front != [] {
          assert (args[..k] + s.front)[k + |s.front| - 1] == s.front[|s.front| - 1];
          GnuRest(cfg, args[k..]);
        }
      }
    }
  }

  /** A POSIX pass leaves the vector as it is, and stops at the first plain word in its way. */
  lemma {:induction false} PosixRest(cfg: Config, args: seq<string>)
    requires Scan(cfg, false, args).Done?
    ensures var r := Scan(cfg, false, args);
            args == r.front + r.rest && (r.rest != [] ==> !IsOption(r.rest[0]) || EndsMarked(r.front))
    decreases |args|
  {
    hide WordGroup, IsOption, IsEnd, Mask, Select;
    if args == [] || !IsOption(args[0]) {
      assert Scan(cfg, false, args) == Done([], [], args) && [] + args == args;
    } else if IsEnd(args[0]) {
      assert [args[0]] + args[1..] == args;
    } else {
      hide Scan, EndsMarked;
      PartitionWord(cfg, false, args);
      var k := Taken(cfg, args);
      PosixRest(cfg, args[k..]);
      var s := Scan(cfg, false, args[k..]);
      Regrouped(args, k, s.front, s.rest);
    }
  }

  lemma Regrouped(args: seq<string>, k: nat, front: seq<string>, rest: seq<string>)
    requires k <= |args| && args[k..] == front + rest
    ensures args == args[..k] + front + rest && (EndsMarked(front) ==> EndsMarked(args[..k] + front))
  {
    assert args == args[..k] + args[k..];
  }
}
