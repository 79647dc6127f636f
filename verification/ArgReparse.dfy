/** When a second pass over a reordered argument vector repeats the first one. */
module ArgReparse {
  import opened Wrappers
  import opened ArgSpec
  import opened ArgTheorems

  /** Whether parsing a reordered vector again, in any mode, repeats a successful GNU pass. */
  ghost predicate Repeatable(cfg: Config) {
    forall args, gnu :: Scan(cfg, true, args).Done? ==>
      var r := Scan(cfg, true, args); Scan(cfg, gnu, r.front + r.rest) == r
  }

  // ----- the condition -----

  /** An option word, or the end mark, with which some successful pass begins. */
  ghost predicate Viable(cfg: Config, v: string) {
    IsOption(v) && exists args :: args != [] && args[0] == v && Scan(cfg, true, args).Done?
  }

  /** What reordering may bring behind an option word that stood at the end or before a plain
      word: any plain word, and in the second case also a viable option word. */
  ghost predicate MayFollow(cfg: Config, next: Option<string>, v: string) {
    (next.Some? ==> !IsOption(next.value)) && (!IsOption(v) || (next.Some? && Viable(cfg, v)))
  }

  /** Nothing that may come to stand behind an option word changes what it means. */
  ghost predicate Settled(cfg: Config) {
    forall w, next, v :: IsOption(w) && !IsEnd(w) && MayFollow(cfg, next, v) ==>
      Unmoved(cfg, w, next, v)
  }

  ghost predicate Unmoved(cfg: Config, w: string, next: Option<string>, v: string)
    requires IsOption(w)
  {
    var g := WordGroup(cfg, w, next);
    g.Parsed? && !g.consumed ==> WordGroup(cfg, w, Some(v)) == g
  }

  // ----- it suffices -----

  /** Scanning words that are no options stops at once, or passes over all of them. */
  lemma {:induction false} ScanRest(cfg: Config, gnu: bool, rest: seq<string>)
    requires forall i :: 0 <= i < |rest| ==> !IsOption(rest[i])
    ensures Scan(cfg, gnu, rest) == Done([], [], rest)
  {
    if rest != [] {
      ScanRest(cfg, gnu, rest[1..]);
      assert rest == [rest[0]] + rest[1..];
    }
  }

  lemma {:induction false} ScanSettles(cfg: Config, args: seq<string>)
    requires Scan(cfg, true, args).Done?
    ensures var r := Scan(cfg, true, args); |r.front| + |r.rest| == |args|
    decreases |args|
  {
    NothingLost(cfg, true, args);
    var r := Scan(cfg, true, args);
    assert |multiset(r.front + r.rest)| == |r.front + r.rest|;
  }

  /** How the result of a pass begins. */
  lemma {:induction false} ScanHead(cfg: Config, args: seq<string>)
    requires Scan(cfg, true, args).Done?
    ensures var r := Scan(cfg, true, args);
            && (args != [] && IsOption(args[0]) ==> r.front != [] && r.front[0] == args[0])
            && (r.front != [] ==> Viable(cfg, r.front[0]))
            && (r.front == [] ==> r.rest == args && forall i :: 0 <= i < |args| ==> !IsOption(args[i]))
    decreases |args|
  {
    hide WordGroup, IsOption, IsEnd;
    if args != [] {
      if !IsOption(args[0]) {
        ScanHead(cfg, args[1..]);
        var r := Scan(cfg, true, args[1..]);
        assert [] + r.front == r.front;
        assert args == [args[0]] + args[1..];
      } else if !IsEnd(args[0]) {
        PartitionWord(cfg, true, args);
      }
    }
  }

  /** The reordered vector is scanned to the same result, in either mode; words `more` that
      are no options may have come in front of the remaining ones. */
  lemma {:induction false} ScanAgain(cfg: Config, gnu: bool, args: seq<string>, more: seq<string>)
    requires Settled(cfg) && Scan(cfg, true, args).Done?
    requires forall i :: 0 <= i < |more| ==> !IsOption(more[i])
    ensures var r := Scan(cfg, true, args);
            Scan(cfg, gnu, r.front + (more + r.rest)) == Done(r.front, r.opts, more + r.rest)
    decreases |args|
  {
    hide WordGroup, IsOption, IsEnd, Settled;
    if args == [] {
      ScanRest(cfg, gnu, more);
      assert [] + (more + []) == more;
    } else if !IsOption(args[0]) {
      var r := Scan(cfg, true, args[1..]);
      ScanAgain(cfg, gnu, args[1..], more + [args[0]]);
      assert more + [args[0]] + r.rest == more + ([args[0]] + r.rest);
      assert [] + r.front == r.front;
    } else if IsEnd(args[0]) {
      assert ([args[0]] + (more + args[1..]))[1..] == more + args[1..];
    } else {
      ScanWordAgain(cfg, gnu, args, more);
    }
  }

  lemma {:induction false} ScanWordAgain(cfg: Config, gnu: bool, args: seq<string>, more: seq<string>)
    requires Settled(cfg) && Scan(cfg, true, args).Done?
    requires forall i :: 0 <= i < |more| ==> !IsOption(more[i])
    requires args != [] && IsOption(args[0]) && !IsEnd(args[0])
    ensures var r := Scan(cfg, true, args);
            Scan(cfg, gnu, r.front + (more + r.rest)) == Done(r.front, r.opts, more + r.rest)
    decreases |args|, 0
  {
    hide WordGroup, IsOption, IsEnd, Settled, Scan, Mask, Select;
    PartitionWord(cfg, true, args);
    ScanWord(cfg, true, args);
    var k := Taken(cfg, args);
    var r := Scan(cfg, true, args[k..]);
    ScanAgain(cfg, gnu, args[k..], more);
    var tail := r.front + (more + r.rest);
    GroupAgain(cfg, args, more);
    ScanWord(cfg, gnu, args[..k] + tail);
    assert args[..k] + r.front + (more + r.rest) == args[..k] + tail;
    assert (args[..k] + tail)[k..] == tail && (args[..k] + tail)[..k] == args[..k];
  }

  /** An option word means the same in the reordered vector. */
  lemma GroupAgain(cfg: Config, args: seq<string>, more: seq<string>)
    requires Settled(cfg) && args != [] && IsOption(args[0]) && !IsEnd(args[0])
    requires WordGroup(cfg, args[0], NextOf(args)).Parsed? && Scan(cfg, true, args[Taken(cfg, args)..]).Done?
    requires forall i :: 0 <= i < |more| ==> !IsOption(more[i])
    ensures var k := Taken(cfg, args);
            var r := Scan(cfg, true, args[k..]);
            var again := args[..k] + (r.front + (more + r.rest));
            && again[0] == args[0] && Taken(cfg, again) == k
            && WordGroup(cfg, again[0], NextOf(again)) == WordGroup(cfg, args[0], NextOf(args))
  {
    hide WordGroup, IsOption, IsEnd, Scan, Viable;
    var k := Taken(cfg, args);
    var r := Scan(cfg, true, args[k..]);
    var again := args[..k] + (r.front + (more + r.rest));
    if k == 2 {
      assert again[1] == args[1];
    } else {
      ScanSettles(cfg, args[1..]);
      ScanHead(cfg, args[1..]);
      if NextOf(again) != NextOf(args) {
        assert r.front == [] ==> again[1] == (more + r.rest)[0];
        assert Unmoved(cfg, args[0], NextOf(args), again[1]);
      }
    }
  }

  lemma SettledRepeats(cfg: Config)
    requires Settled(cfg)
    ensures Repeatable(cfg)
  {
    hide Settled, Scan;
    forall args, gnu | Scan(cfg, true, args).Done?
      ensures var r := Scan(cfg, true, args); Scan(cfg, gnu, r.front + r.rest) == r
    {
      var r := Scan(cfg, true, args);
      ScanAgain(cfg, gnu, args, []);
      assert [] + r.rest == r.rest;
    }
  }

  // ----- it is needed -----

  /** The next word decides over the last option of a group only: their number is the same, and
      a group that takes the next word differs from one that does not in that last option. */
  ghost predicate SameCount(g: Group, h: Group) {
    g.Parsed? && h.Parsed? ==>
      && |g.opts| == |h.opts|
      && (h.consumed && !g.consumed ==> |g.opts| > 0 && g.opts[|g.opts| - 1] != h.opts[|h.opts| - 1])
  }

  lemma {:induction false} ShortCount(cfg: Config, w: string, p: nat, next: Option<string>, next': Option<string>)
    ensures SameCount(ShortGroup(cfg, w, p, next), ShortGroup(cfg, w, p, next'))
    decreases |w| - p
  {
    hide First, Chosen;
    if p + 1 == |w| {
      assert ShortGroup(cfg, w, p + 1, next) == Parsed([], false) == ShortGroup(cfg, w, p + 1, next');
    } else if p < |w| {
      var d, attached := Chosen(cfg, First(cfg.usage, 0, Short(w[p]))), Some(w[p + 1..]);
      var s := One(cfg, d, w[p..], attached, next);
      assert s == One(cfg, d, w[p..], attached, next');
      hide One, After, SameCount;
      ShortCount(cfg, w, p + 1, next, next');
      match s {
        case Plain(o) => AfterCount([o], ShortGroup(cfg, w, p + 1, next), ShortGroup(cfg, w, p + 1, next'));
        case _ => EqualCount(ShortGroup(cfg, w, p, next));
      }
    }
  }

  lemma AfterCount(os: seq<Opt>, g: Group, h: Group)
    requires SameCount(g, h)
    ensures SameCount(After(os, g), After(os, h))
  {
  }

  lemma EqualCount(g: Group)
    ensures SameCount(g, g)
  {
  }

  lemma LongCount(cfg: Config, w: string, name: string, next: Option<string>, next': Option<string>)
    ensures SameCount(LongGroup(cfg, w, name, next), LongGroup(cfg, w, name, next'))
  {
    hide LongIndex, Chosen, Attached;
  }

  lemma WordCount(cfg: Config, w: string, next: Option<string>, next': Option<string>)
    requires IsOption(w)
    ensures SameCount(WordGroup(cfg, w, next), WordGroup(cfg, w, next'))
  {
    hide LongGroup, ShortGroup, SameCount, LongIndex;
    ShortCount(cfg, w, 1, next, next');
    LongCount(cfg, w, w[1..], next, next');
    LongCount(cfg, w, w[2..], next, next');
  }

  /** A vector whose reordered form begins with `w` and then `v`, although `w` came before
      `next` at first. */
  lemma FollowerUnheard(cfg: Config, args: seq<string>, w: string, next: Option<string>, v: string, more: seq<Opt>)
    requires Repeatable(cfg) && IsOption(w) && !IsEnd(w) && Scan(cfg, true, args).Done?
    requires WordGroup(cfg, w, next).Parsed? && !WordGroup(cfg, w, next).consumed
    requires var r := Scan(cfg, true, args);
             && r.opts == WordGroup(cfg, w, next).opts + more && |r.front + r.rest| >= 2
             && (r.front + r.rest)[0] == w && (r.front + r.rest)[1] == v
    ensures WordGroup(cfg, w, Some(v)) == WordGroup(cfg, w, next)
  {
    hide WordGroup, IsOption, IsEnd;
    var r := Scan(cfg, true, args);
    var again := r.front + r.rest;
    var g, h := WordGroup(cfg, w, next), WordGroup(cfg, w, Some(v));
    assert Scan(cfg, true, again) == r;
    WordCount(cfg, w, next, Some(v));
    PartitionWord(cfg, true, again);
    ScanWord(cfg, true, again);
    var tail := Scan(cfg, true, again[Taken(cfg, again)..]);
    assert r.opts == h.opts + tail.opts;
    hide Scan;
    SamePrefix(g.opts, more, h.opts, tail.opts);
  }

  lemma SamePrefix(a: seq<Opt>, b: seq<Opt>, c: seq<Opt>, d: seq<Opt>)
    requires a + b == c + d && |a| == |c|
    ensures a == c
  {
    assert a == (a + b)[..|a|] && c == (c + d)[..|c|];
  }

  lemma PlainWord(cfg: Config, s: string, args: seq<string>)
    requires !IsOption(s)
    ensures Scan(cfg, true, [s] + args) == Then([], [], [s], Scan(cfg, true, args))
  {
    assert ([s] + args)[1..] == args;
  }

  /** A word `f` before `w` comes to stand behind it. */
  lemma PlainFollower(cfg: Config, w: string, next: Option<string>, f: string)
    requires Repeatable(cfg) && IsOption(w) && !IsEnd(w) && (next.Some? ==> !IsOption(next.value)) && !IsOption(f)
    ensures Unmoved(cfg, w, next, f)
  {
    var g := WordGroup(cfg, w, next);
    if g.Parsed? && !g.consumed {
      var post := if next.Some? then [next.value] else [];
      ScanRest(cfg, true, post);
      assert ([w] + post)[1..] == post && ([w] + post)[..1] == [w];
      ScanWord(cfg, true, [w] + post);
      PlainWord(cfg, f, [w] + post);
      hide Scan, WordGroup;
      assert Scan(cfg, true, [f] + ([w] + post)) == Done([w], g.opts, [f] + post);
      assert g.opts == g.opts + [];
      FollowerUnheard(cfg, [f] + ([w] + post), w, next, f, []);
    }
  }

  /** A viable word `v` behind `w` and a plain word comes to stand right behind `w`. */
  lemma ViableFollower(cfg: Config, w: string, s: string, v: string)
    requires Repeatable(cfg) && IsOption(w) && !IsEnd(w) && !IsOption(s) && Viable(cfg, v)
    ensures Unmoved(cfg, w, Some(s), v)
  {
    var g := WordGroup(cfg, w, Some(s));
    if g.Parsed? && !g.consumed {
      var args :| args != [] && args[0] == v && Scan(cfg, true, args).Done?;
      var r := Scan(cfg, true, args);
      ScanHead(cfg, args);
      BeforePlain(cfg, w, s, args);
      hide Scan, WordGroup;
      FollowerUnheard(cfg, [w] + ([s] + args), w, Some(s), v, r.opts);
    }
  }

  lemma BeforePlain(cfg: Config, w: string, s: string, args: seq<string>)
    requires IsOption(w) && !IsEnd(w) && !IsOption(s) && Scan(cfg, true, args).Done?
    requires WordGroup(cfg, w, Some(s)).Parsed? && !WordGroup(cfg, w, Some(s)).consumed
    ensures var r := Scan(cfg, true, args);
            Scan(cfg, true, [w] + ([s] + args)) == Done([w] + r.front, WordGroup(cfg, w, Some(s)).opts + r.opts, [s] + r.rest)
  {
    hide Scan, WordGroup, IsOption, IsEnd;
    var r, all := Scan(cfg, true, args), [w] + ([s] + args);
    PlainWord(cfg, s, args);
    assert all[1..] == [s] + args && all[..1] == [w] && all[1] == s;
    ScanWord(cfg, true, all);
    assert [] + r.front == r.front && [] + r.opts == r.opts && [] + ([s] + r.rest) == [s] + r.rest;
  }

  /** A second pass repeats every successful first one exactly for settled checkers, whatever
      else they look at. */
  lemma RepeatableIff(cfg: Config)
    ensures Repeatable(cfg) <==> Settled(cfg)
  {
    hide Scan, WordGroup, Repeatable, Unmoved;
    if Settled(cfg) {
      SettledRepeats(cfg);
    }
    if Repeatable(cfg) {
      forall w, next, v | IsOption(w) && !IsEnd(w) && MayFollow(cfg, next, v)
        ensures Unmoved(cfg, w, next, v)
      {
        if IsOption(v) {
          ViableFollower(cfg, w, next.value, v);
        } else {
          PlainFollower(cfg, w, next, v);
        }
      }
    }
  }

  // ----- checkers that only look at presence -----

  /** A checker that looks at an argument's presence, not at what it says. */
  ghost predicate PresenceOnly(cfg: Config) {
    forall d, name, a, b :: cfg.check(d, name, Some(a)) == cfg.check(d, name, Some(b))
  }

  /** Both words are the same to a word that does not take them. */
  ghost predicate SameShape(g: Group, g': Group) {
    match g
    case Fatal(_) => g'.Fatal?
    case Parsed(os, c) => g'.Parsed? && g'.consumed == c && (!c ==> g'.opts == os)
  }

  lemma {:induction false} ShortShape(cfg: Config, w: string, p: nat, a: string, b: string)
    requires PresenceOnly(cfg)
    ensures SameShape(ShortGroup(cfg, w, p, Some(a)), ShortGroup(cfg, w, p, Some(b)))
    decreases |w| - p
  {
    hide First, Chosen;
    if p < |w| {
      ShortShape(cfg, w, p + 1, a, b);
    }
  }

  lemma LongShape(cfg: Config, w: string, name: string, a: string, b: string)
    requires PresenceOnly(cfg)
    ensures SameShape(LongGroup(cfg, w, name, Some(a)), LongGroup(cfg, w, name, Some(b)))
  {
    hide LongIndex, Chosen, Attached;
  }

  lemma WordShape(cfg: Config, w: string, a: string, b: string)
    requires PresenceOnly(cfg) && IsOption(w)
    ensures SameShape(WordGroup(cfg, w, Some(a)), WordGroup(cfg, w, Some(b)))
  {
    hide LongGroup, ShortGroup, SameShape, LongIndex, PresenceOnly;
    ShortShape(cfg, w, 1, a, b);
    LongShape(cfg, w, w[1..], a, b);
    LongShape(cfg, w, w[2..], a, b);
  }

  /** A word that is content to be the last one is not changed by a word behind it. */
  ghost predicate Steady(cfg: Config) {
    forall w :: IsOption(w) && !IsEnd(w) && WordGroup(cfg, w, None).Parsed? ==>
      WordGroup(cfg, w, Some("x")) == WordGroup(cfg, w, None)
  }

  /** For checkers that only look at presence, one word behind the last one is test enough. */
  lemma SteadyIffSettled(cfg: Config)
    requires PresenceOnly(cfg)
    ensures Steady(cfg) <==> Settled(cfg)
  {
    if Steady(cfg) {
      forall w, next, v | IsOption(w) && !IsEnd(w) && MayFollow(cfg, next, v)
        ensures Unmoved(cfg, w, next, v)
      {
        hide WordGroup, PresenceOnly, Viable;
        WordShape(cfg, w, if next.Some? then next.value else "x", v);
      }
    }
    if Settled(cfg) {
      hide WordGroup, Viable;
      forall w | IsOption(w) && !IsEnd(w) && WordGroup(cfg, w, None).Parsed?
        ensures WordGroup(cfg, w, Some("x")) == WordGroup(cfg, w, None)
      {
        assert MayFollow(cfg, None, "x");
        assert Unmoved(cfg, w, None, "x");
      }
    }
  }

  // ----- a condition on the checker alone -----

  /** A name without an attached argument: a single short option, or a long one without `=`. */
  predicate Bare(name: string) { |name| == 1 || (|name| >= 2 && name[0] == '-' && '=' !in name[1..]) }

  /** The option was accepted without taking the next word. */
  predicate Declines(st: ArgStatus, next: Option<string>) {
    st == ArgNone || st == ArgIgnore || (st == ArgOk && next.None?)
  }

  /** An option that leaves one separate argument alone leaves any other alone. */
  ghost predicate LeavesNext(cfg: Config) {
    forall d: nat, name, next, a :: d < |cfg.usage| && Bare(name) ==> Leaves(cfg, d, name, next, a)
  }

  ghost predicate Leaves(cfg: Config, d: nat, name: string, next: Option<string>, a: string) {
    Declines(cfg.check(d, name, next), next) ==>
      cfg.check(d, name, Some(a)) == ArgNone || cfg.check(d, name, Some(a)) == ArgIgnore
  }

  lemma {:induction false} ShortSteady(cfg: Config, w: string, p: nat, next: Option<string>, a: string)
    requires LeavesNext(cfg) && ShortGroup(cfg, w, p, next).Parsed? && !ShortGroup(cfg, w, p, next).consumed
    ensures ShortGroup(cfg, w, p, Some(a)) == ShortGroup(cfg, w, p, next)
    decreases |w| - p
  {
    hide First;
    if p < |w| {
      var d := Chosen(cfg, First(cfg.usage, 0, Short(w[p])));
      if p + 1 == |w| && d.Some? {
        assert Bare(w[p..]);
        assert Leaves(cfg, d.value, w[p..], next, a);
      }
      var g := ShortGroup(cfg, w, p + 1, next);
      if g.Parsed? && !g.consumed {
        ShortSteady(cfg, w, p + 1, next, a);
      }
      if p + 1 == |w| {
        assert ShortGroup(cfg, w, p + 1, Some(a)) == Parsed([], false);
      }
    }
  }

  lemma LongSteady(cfg: Config, w: string, name: string, next: Option<string>, a: string)
    requires LeavesNext(cfg) && LongGroup(cfg, w, name, next).Parsed? && !LongGroup(cfg, w, name, next).consumed
    requires |w| >= 2 && w[0] == '-' && ((w[1] == '-' && name == w[2..]) || name == w[1..])
    ensures LongGroup(cfg, w, name, Some(a)) == LongGroup(cfg, w, name, next)
  {
    hide LongIndex;
    if Attached(name) == None {
      assert '=' !in name;
      assert w[1] == '-' && name == w[2..] ==> w[1..] == ['-'] + name;
      assert Bare(w);
      var d := Chosen(cfg, LongIndex(cfg, name));
      assert d.Some? ==> Leaves(cfg, d.value, w, next, a);
    }
  }

  /** Under this condition a second pass always repeats the first. */
  lemma LeavesNextIsSettled(cfg: Config)
    requires LeavesNext(cfg)
    ensures Settled(cfg)
  {
    forall w, next, v | IsOption(w) && !IsEnd(w) && MayFollow(cfg, next, v)
      ensures Unmoved(cfg, w, next, v)
    {
      var g := WordGroup(cfg, w, next);
      hide LongGroup, ShortGroup, LongIndex, LeavesNext, Viable;
      if g.Parsed? && !g.consumed {
        if w[1] == '-' {
          LongSteady(cfg, w, w[2..], next, v);
        } else if cfg.singleMinus && LongIndex(cfg, w[1..]) < |cfg.usage| {
          LongSteady(cfg, w, w[1..], next, v);
        } else {
          ShortSteady(cfg, w, 1, next, v);
        }
      }
    }
  }

  /** `namelen` as set by `Option::init`. */
  function NameLength(name: string): (n: nat)
    ensures n <= |name|
  {
    if name == "" then 0 else if name[0] != '-' then 1 else 1 + IndexOf('=', name[1..])
  }

  /** What an option does with an argument, by the checkers of the library and its manual. */
  datatype Taking = TakesNone | TakesOptional | TakesRequired | TakesNonEmpty | TakesNumeric | Unknown

  /** `Arg::None`, `Arg::Optional`, and the manual's `Required`, `NonEmpty`, `Numeric` and
      `Unknown`; `number` tells which texts `strtol` reads to their end. */
  function Standard(takes: nat -> Taking, number: string -> bool): (nat, string, Option<string>) -> ArgStatus {
    (d: nat, name: string, arg: Option<string>) =>
      match takes(d)
      case TakesNone => ArgNone
      case TakesOptional => if arg.Some? && NameLength(name) < |name| then ArgOk else ArgIgnore
      case TakesRequired => if arg.Some? then ArgOk else ArgIllegal
      case TakesNonEmpty => if arg.Some? && arg.value != "" then ArgOk else ArgIllegal
      case TakesNumeric => if arg.Some? && number(arg.value) then ArgOk else ArgIllegal
      case Unknown => ArgIllegal
  }

  lemma BareLength(name: string)
    requires Bare(name)
    ensures NameLength(name) == |name|
  {
  }

  /** With these checkers a second pass repeats the first. */
  lemma StandardRepeats(us: seq<Descriptor>, takes: nat -> Taking, number: string -> bool, minAbbr: int, singleMinus: bool)
    ensures var cfg := Config(us, Standard(takes, number), minAbbr, singleMinus); Settled(cfg) && Repeatable(cfg)
  {
    var cfg := Config(us, Standard(takes, number), minAbbr, singleMinus);
    forall d: nat, name, next, a | d < |us| && Bare(name)
      ensures Leaves(cfg, d, name, next, a)
    {
      BareLength(name);
    }
    LeavesNextIsSettled(cfg);
    SettledRepeats(cfg);
  }

  // ----- an unsettled checker -----

  /** Takes an argument if there is one, and does without otherwise. */
  function Greedy(d: nat, name: string, arg: Option<string>): ArgStatus { if arg.Some? then ArgOk else ArgIgnore }

  function GreedyConfig(): Config { Config([Descriptor(0, "a", "")], Greedy, 0, false) }

  lemma GreedyWord(next: Option<string>)
    ensures WordGroup(GreedyConfig(), "-a", next) == Parsed([Opt(0, "a", next)], next.Some?)
  {
    var cfg := GreedyConfig();
    assert First(cfg.usage, 0, Short('a')) == 0 by {
      assert 'a' in cfg.usage[0].short;
    }
    assert "-a"[1..] == "a" && "-a"[1] == 'a';
    assert ShortGroup(cfg, "-a", 2, next) == Parsed([], false);
  }

  /** With such a checker a second pass takes a word the first one left alone. */
  lemma NotAlwaysRepeatable()
    ensures var cfg := GreedyConfig();
            && PresenceOnly(cfg) && Scan(cfg, true, ["x", "-a"]) == Done(["-a"], [Opt(0, "a", None)], ["x"])
            && Scan(cfg, true, ["-a", "x"]) == Done(["-a", "x"], [Opt(0, "a", Some("x"))], [])
  {
    GreedyWord(None);
    GreedyWord(Some("x"));
    var cfg := GreedyConfig();
    hide WordGroup;
    assert ["-a"][1..] == [] && ["-a"][..1] == ["-a"];
    assert ["x", "-a"][1..] == ["-a"];
    assert ["-a", "x"][2..] == [] && ["-a", "x"][..2] == ["-a", "x"];
    assert Scan(cfg, true, ["-a"]) == Done(["-a"], [Opt(0, "a", None)], []);
  }
}
