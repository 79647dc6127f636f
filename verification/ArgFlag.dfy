/** Whether the `gnu` flag still has an effect on a reordered argument vector. */
module ArgFlag {
  import opened Wrappers
  import opened ArgSpec
  import opened ArgTheorems
  import opened ArgReparse

  /** After a successful GNU pass, a pass in either mode over the reordered vector is the same. */
  ghost predicate FlagIdle(cfg: Config) {
    forall args :: Scan(cfg, true, args).Done? ==>
      var r := Scan(cfg, true, args); Scan(cfg, false, r.front + r.rest) == Scan(cfg, true, r.front + r.rest)
  }

  // ----- the condition -----

  predicate Ordinary(u: string) { IsOption(u) && !IsEnd(u) }

  /** Option word `u` takes `z` as its argument. */
  predicate Takes(cfg: Config, u: string, z: string) {
    Ordinary(u) && var g := WordGroup(cfg, u, Some(z)); g.Parsed? && g.consumed
  }

  /** Option word `u` is accepted and leaves `s` alone. */
  predicate Passes(cfg: Config, u: string, s: string) {
    Ordinary(u) && var g := WordGroup(cfg, u, Some(s)); g.Parsed? && !g.consumed
  }

  /** Words that, once they follow `u`, leave a plain word bare in front of a further option: `u`
      takes the end mark; or it takes an option word away from its argument, and that argument is
      plain, or is an option word that goes on in the same way. */
  predicate LeadsBy(cfg: Config, u: string, chain: seq<string>)
    decreases |chain|
  {
    if chain == [] then Takes(cfg, u, "--")
    else
      && |chain| >= 2 && Ordinary(chain[0]) && Takes(cfg, u, chain[0]) && Takes(cfg, chain[0], chain[1])
      && (if IsOption(chain[1]) then !IsEnd(chain[1]) && LeadsBy(cfg, chain[1], chain[2..]) else |chain| == 2)
  }

  ghost predicate Leads(cfg: Config, u: string) { exists chain :: LeadsBy(cfg, u, chain) }

  /** Some option declines a plain word, but takes an option word in its place and so comes to
      leave a plain word bare. */
  ghost predicate Exposes(cfg: Config) { exists w, s :: !IsOption(s) && Passes(cfg, w, s) && Leads(cfg, w) }

  ghost predicate Plain(ws: seq<string>) { forall i :: 0 <= i < |ws| ==> !IsOption(ws[i]) }

  // ----- without it the flag is idle -----

  /** The reordered rest of a vector, with words that were passed over before. */
  function Again(r: Scanned, more: seq<string>): seq<string>
    requires r.Done?
  {
    r.front + (more + r.rest)
  }

  ghost predicate SameInBoth(cfg: Config, v: seq<string>) { Scan(cfg, false, v) == Scan(cfg, true, v) }

  lemma PlainSame(cfg: Config, v: seq<string>)
    requires Plain(v)
    ensures SameInBoth(cfg, v)
  {
    hide Scan;
    ScanRest(cfg, false, v);
    ScanRest(cfg, true, v);
  }

  /** An option word, if what is left behind it is scanned alike. */
  lemma WordSame(cfg: Config, v: seq<string>)
    requires v != [] && Ordinary(v[0])
    requires WordGroup(cfg, v[0], NextOf(v)).Parsed? ==> SameInBoth(cfg, v[Taken(cfg, v)..])
    ensures SameInBoth(cfg, v)
  {
    hide WordGroup, IsOption, IsEnd;
    if WordGroup(cfg, v[0], NextOf(v)).Parsed? {
      ScanWord(cfg, false, v);
      ScanWord(cfg, true, v);
      hide Scan;
    }
  }

  lemma EndSame(cfg: Config, v: seq<string>)
    requires v != [] && IsEnd(v[0])
    ensures SameInBoth(cfg, v)
  {
  }

  /** A plain word at the front of the rest joins those passed over. */
  lemma AgainPlain(cfg: Config, args: seq<string>, more: seq<string>)
    requires args != [] && !IsOption(args[0]) && Scan(cfg, true, args).Done?
    ensures Scan(cfg, true, args[1..]).Done?
    ensures Again(Scan(cfg, true, args), more) == Again(Scan(cfg, true, args[1..]), more + [args[0]])
  {
    hide WordGroup;
    var r := Scan(cfg, true, args[1..]);
    assert [] + r.front == r.front;
    assert more + ([args[0]] + r.rest) == more + [args[0]] + r.rest;
  }

  /** An option word, with its argument, stays in front. */
  lemma AgainWord(cfg: Config, args: seq<string>, more: seq<string>)
    requires args != [] && Ordinary(args[0]) && Scan(cfg, true, args).Done?
    ensures WordGroup(cfg, args[0], NextOf(args)).Parsed? && Scan(cfg, true, args[Taken(cfg, args)..]).Done?
    ensures Again(Scan(cfg, true, args), more) == args[..Taken(cfg, args)] + Again(Scan(cfg, true, args[Taken(cfg, args)..]), more)
  {
    hide WordGroup, IsOption, IsEnd, Scan, Mask, Select;
    PartitionWord(cfg, true, args);
    var k := Taken(cfg, args);
    var r := Scan(cfg, true, args[k..]);
    assert args[..k] + r.front + (more + r.rest) == args[..k] + (r.front + (more + r.rest));
  }

  lemma AgainEnd(cfg: Config, args: seq<string>, more: seq<string>)
    requires args != [] && IsEnd(args[0])
    ensures Scan(cfg, true, args).Done? && Again(Scan(cfg, true, args), more) == ["--"] + (more + args[1..])
  {
  }

  lemma AgainNone(cfg: Config, more: seq<string>)
    ensures Scan(cfg, true, []).Done? && Again(Scan(cfg, true, []), more) == more
  {
    assert [] + (more + []) == more;
  }

  /** The reordered rest, in step with the first pass. */
  lemma {:induction false} InStep(cfg: Config, args: seq<string>, more: seq<string>)
    requires !Exposes(cfg) && Scan(cfg, true, args).Done? && Plain(more)
    ensures SameInBoth(cfg, Again(Scan(cfg, true, args), more))
    decreases |args|, 0
  {
    hide WordGroup, Scan, Again, Exposes, SameInBoth, Leads, IsOption, IsEnd, Takes, Passes;
    if args == [] {
      AgainNone(cfg, more);
      PlainSame(cfg, more);
    } else if !IsOption(args[0]) {
      AgainPlain(cfg, args, more);
      InStep(cfg, args[1..], more + [args[0]]);
    } else if IsEnd(args[0]) {
      AgainEnd(cfg, args, more);
      EndSame(cfg, Again(Scan(cfg, true, args), more));
    } else {
      InStepWord(cfg, args, more);
    }
  }

  lemma {:induction false} InStepWord(cfg: Config, args: seq<string>, more: seq<string>)
    requires !Exposes(cfg) && args != [] && Ordinary(args[0]) && Scan(cfg, true, args).Done? && Plain(more)
    ensures SameInBoth(cfg, Again(Scan(cfg, true, args), more))
    decreases |args|, 0, 0
  {
    hide WordGroup, Scan, SameInBoth, Leads, IsOption, IsEnd, Again;
    AgainWord(cfg, args, more);
    var k := Taken(cfg, args);
    var tail := Again(Scan(cfg, true, args[k..]), more);
    var v := args[..k] + tail;
    if k == 1 && |args| > 1 && !IsOption(args[1]) {
      assert Passes(cfg, args[0], args[1]);
      Shifted(cfg, args[0], args[1..], more);
      assert v == [args[0]] + tail;
    } else if |args| == 1 {
      AgainNone(cfg, more);
      assert args[k..] == [] && v == args + more;
      LastWord(cfg, args[0], more);
      assert args == [args[0]];
    } else {
      SameNeighbour(cfg, args, more);
      InStep(cfg, args[k..], more);
      assert v[k..] == tail;
      WordSame(cfg, v);
    }
  }

  /** The last option word of the vector has only plain words behind it. */
  lemma LastWord(cfg: Config, w: string, more: seq<string>)
    requires Ordinary(w) && Plain(more)
    ensures SameInBoth(cfg, [w] + more)
  {
    hide WordGroup, SameInBoth, Scan, IsOption, IsEnd;
    var v := [w] + more;
    var k := Taken(cfg, v);
    assert Plain(v[k..]) by {
      assert forall i :: 0 <= i < |v[k..]| ==> v[k..][i] == more[k - 1 + i];
    }
    PlainSame(cfg, v[k..]);
    WordSame(cfg, v);
  }

  /** A word that took its neighbour, or stood before an option word, keeps it. */
  lemma SameNeighbour(cfg: Config, args: seq<string>, more: seq<string>)
    requires |args| > 1 && Ordinary(args[0]) && WordGroup(cfg, args[0], NextOf(args)).Parsed?
    requires Scan(cfg, true, args[Taken(cfg, args)..]).Done? && (Taken(cfg, args) == 2 || IsOption(args[1]))
    ensures var v := args[..Taken(cfg, args)] + Again(Scan(cfg, true, args[Taken(cfg, args)..]), more);
            v[0] == args[0] && NextOf(v) == NextOf(args) && Taken(cfg, v) == Taken(cfg, args)
  {
    hide WordGroup, Scan, IsOption, IsEnd;
    var k := Taken(cfg, args);
    if k == 1 {
      ScanHead(cfg, args[1..]);
    }
    assert (args[..k] + Again(Scan(cfg, true, args[k..]), more))[1] == args[1];
  }

  /** The reordered rest behind an option word that may take its head. */
  lemma {:induction false} Shifted(cfg: Config, u: string, args: seq<string>, more: seq<string>)
    requires !Exposes(cfg) && Ordinary(u) && !Leads(cfg, u) && Scan(cfg, true, args).Done? && Plain(more)
    ensures SameInBoth(cfg, [u] + Again(Scan(cfg, true, args), more))
    decreases |args|, 2
  {
    hide WordGroup, Scan, SameInBoth, Exposes, Leads, IsOption, IsEnd, Again;
    var v := Again(Scan(cfg, true, args), more);
    var all := [u] + v;
    var g := WordGroup(cfg, u, NextOf(all));
    if g.Parsed? {
      if g.consumed {
        assert v != [] && NextOf(all) == Some(v[0]);
        HeadTaken(cfg, u, args, more);
        assert all[2..] == v[1..];
      } else {
        InStep(cfg, args, more);
        assert all[1..] == v;
      }
    }
    WordSame(cfg, all);
  }

  /** The reordered rest without its head, which `u` took. */
  lemma {:induction false} HeadTaken(cfg: Config, u: string, args: seq<string>, more: seq<string>)
    requires !Exposes(cfg) && !Leads(cfg, u) && Scan(cfg, true, args).Done? && Plain(more)
    requires Again(Scan(cfg, true, args), more) != [] && Takes(cfg, u, Again(Scan(cfg, true, args), more)[0])
    ensures SameInBoth(cfg, Again(Scan(cfg, true, args), more)[1..])
    decreases |args|, 1
  {
    hide WordGroup, Scan, SameInBoth, Exposes, IsOption, IsEnd, Again, Takes, Leads;
    var v := Again(Scan(cfg, true, args), more);
    if args == [] {
      AgainNone(cfg, more);
      PlainSame(cfg, more[1..]);
    } else if !IsOption(args[0]) {
      AgainPlain(cfg, args, more);
      HeadTaken(cfg, u, args[1..], more + [args[0]]);
    } else if IsEnd(args[0]) {
      AgainEnd(cfg, args, more);
      LeadsEnd(cfg, u);
    } else {
      AgainWord(cfg, args, more);
      var k := Taken(cfg, args);
      var tail := Again(Scan(cfg, true, args[k..]), more);
      if k == 1 {
        InStep(cfg, args[1..], more);
        assert v[1..] == tail;
      } else {
        TakesNext(cfg, args);
        LeadsOn(cfg, u, args[0], args[1]);
        assert v[1..] == [args[1]] + tail;
        if IsEnd(args[1]) {
          EndSame(cfg, v[1..]);
        } else {
          Shifted(cfg, args[1], args[2..], more);
        }
      }
    }
  }

  lemma TakesNext(cfg: Config, args: seq<string>)
    requires args != [] && Ordinary(args[0]) && Taken(cfg, args) == 2
    ensures Takes(cfg, args[0], args[1])
  {
    hide WordGroup;
  }

  lemma LeadsEnd(cfg: Config, u: string)
    requires Takes(cfg, u, "--")
    ensures Leads(cfg, u)
  {
    assert LeadsBy(cfg, u, []);
  }

  lemma LeadsOn(cfg: Config, u: string, y: string, a: string)
    requires Ordinary(y) && Takes(cfg, u, y) && Takes(cfg, y, a)
    ensures !IsOption(a) || (!IsEnd(a) && Leads(cfg, a)) ==> Leads(cfg, u)
  {
    hide Takes;
    if !IsOption(a) {
      assert LeadsBy(cfg, u, [y, a]);
    } else if !IsEnd(a) && Leads(cfg, a) {
      var chain :| LeadsBy(cfg, a, chain);
      assert ([y, a] + chain)[2..] == chain;
      assert LeadsBy(cfg, u, [y, a] + chain);
    }
  }

  // ----- with it the flag shows -----

  /** The POSIX pass stops where the GNU pass goes on. */
  ghost predicate Shows(cfg: Config, v: seq<string>) {
    && Scan(cfg, false, v).Done?
    && (Scan(cfg, true, v).Failed? || |Scan(cfg, true, v).front| > |Scan(cfg, false, v).front|)
  }

  lemma {:induction false} OptionFound(cfg: Config, t: seq<string>, i: nat)
    requires i < |t| && IsOption(t[i])
    ensures Scan(cfg, true, t).Failed? || Scan(cfg, true, t).front != []
    decreases |t|
  {
    hide WordGroup, IsOption, IsEnd;
    if !IsOption(t[0]) {
      OptionFound(cfg, t[1..], i - 1);
    }
  }

  lemma PlainShows(cfg: Config, s: string, t: seq<string>, i: nat)
    requires !IsOption(s) && i < |t| && IsOption(t[i])
    ensures Shows(cfg, [s] + t)
  {
    assert ([s] + t)[1..] == t;
    OptionFound(cfg, t, i);
  }

  /** An option with its argument in front changes nothing about that. */
  lemma TakenShows(cfg: Config, u: string, z: string, t: seq<string>)
    requires Takes(cfg, u, z) && Shows(cfg, t)
    ensures Shows(cfg, [u, z] + t)
  {
    hide WordGroup, IsOption, IsEnd;
    var v := [u, z] + t;
    assert v[2..] == t && v[..2] == [u, z];
    ScanWord(cfg, false, v);
    ScanWord(cfg, true, v);
    hide Scan;
  }

  /** What stands behind the chain in the reordered vector. */
  function Behind(s: string): seq<string> { ["--", s, "-o"] }

  lemma {:induction false} ChainShows(cfg: Config, u: string, chain: seq<string>, s: string)
    requires LeadsBy(cfg, u, chain) && !IsOption(s)
    ensures Shows(cfg, [u] + chain + Behind(s))
    decreases |chain|
  {
    hide Shows, Takes;
    if chain == [] {
      PlainShows(cfg, s, ["-o"], 0);
      TakenShows(cfg, u, "--", [s] + ["-o"]);
      assert [u] + chain + Behind(s) == [u, "--"] + ([s] + ["-o"]);
    } else {
      var y, a, rest := chain[0], chain[1], chain[2..];
      assert [u] + chain + Behind(s) == [u, y] + ([a] + rest + Behind(s));
      if IsOption(a) {
        ChainShows(cfg, a, rest, s);
      } else {
        assert [a] + rest + Behind(s) == [a] + Behind(s);
        PlainShows(cfg, a, Behind(s), 0);
      }
      TakenShows(cfg, u, y, [a] + rest + Behind(s));
    }
  }

  /** The first pass finds the chain in pairs, each option with its argument. */
  lemma {:induction false} ChainPairs(cfg: Config, u: string, chain: seq<string>)
    requires LeadsBy(cfg, u, chain)
    ensures var r := Scan(cfg, true, chain + ["--", "-o"]); r.Done? && r.front == chain + ["--"] && r.rest == ["-o"]
    decreases |chain|
  {
    hide WordGroup;
    var all := chain + ["--", "-o"];
    if chain == [] {
      assert all == ["--", "-o"] && all[1..] == ["-o"];
    } else {
      assert all[2..] == chain[2..] + ["--", "-o"] && all[..2] == chain[..2];
      if IsOption(chain[1]) {
        ChainPairs(cfg, chain[1], chain[2..]);
      } else {
        assert chain[2..] == [] && all[2..] == ["--", "-o"] && all[2..][1..] == ["-o"];
      }
      ScanWord(cfg, true, all);
      assert chain == chain[..2] + chain[2..];
    }
  }

  /** A vector on whose reordered form the flag has an effect. */
  lemma ExposedVector(cfg: Config, w: string, s: string, chain: seq<string>)
    requires !IsOption(s) && Passes(cfg, w, s) && LeadsBy(cfg, w, chain)
    ensures !FlagIdle(cfg)
  {
    hide WordGroup, IsOption, IsEnd, LeadsBy;
    ChainPairs(cfg, w, chain);
    ChainShows(cfg, w, chain, s);
    var post := chain + ["--", "-o"];
    BeforePlain(cfg, w, s, post);
    hide Scan;
    var args := [w] + ([s] + post);
    var r := Scan(cfg, true, args);
    assert r.front + r.rest == [w] + (chain + ["--"]) + ([s] + ["-o"]) == [w] + chain + Behind(s);
  }

  /** The flag has no effect on reordered vectors exactly if no option exposes a plain word. */
  lemma FlagIdleIff(cfg: Config)
    ensures FlagIdle(cfg) <==> !Exposes(cfg)
  {
    hide Scan, LeadsBy, Passes;
    if Exposes(cfg) {
      var w, s :| !IsOption(s) && Passes(cfg, w, s) && Leads(cfg, w);
      var chain :| LeadsBy(cfg, w, chain);
      ExposedVector(cfg, w, s, chain);
    } else {
      forall args | Scan(cfg, true, args).Done?
        ensures var r := Scan(cfg, true, args); Scan(cfg, false, r.front + r.rest) == Scan(cfg, true, r.front + r.rest)
      {
        var r := Scan(cfg, true, args);
        InStep(cfg, args, []);
        assert [] + r.rest == r.rest;
      }
    }
  }

  // ----- which checkers are concerned -----

  /** Not those that only look at an argument's presence: the comment holds for them. */
  lemma PresenceOnlyIdle(cfg: Config)
    requires PresenceOnly(cfg)
    ensures FlagIdle(cfg)
  {
    FlagIdleIff(cfg);
    if Exposes(cfg) {
      hide WordGroup, PresenceOnly, FlagIdle;
      var w, s :| !IsOption(s) && Passes(cfg, w, s) && Leads(cfg, w);
      var chain :| LeadsBy(cfg, w, chain);
      WordShape(cfg, w, s, if chain == [] then "--" else chain[0]);
    }
  }

  /** Nor those whose second pass repeats the first. */
  lemma RepeatableIdle(cfg: Config)
    requires Repeatable(cfg)
    ensures FlagIdle(cfg)
  {
    hide Scan;
    forall args | Scan(cfg, true, args).Done?
      ensures var r := Scan(cfg, true, args); Scan(cfg, false, r.front + r.rest) == Scan(cfg, true, r.front + r.rest)
    {
      var r := Scan(cfg, true, args);
      assert Scan(cfg, false, r.front + r.rest) == r && Scan(cfg, true, r.front + r.rest) == r;
    }
  }

  /** `-a` takes only the word "-b", `-b` any argument, `-c` none. */
  function Choosy(d: nat, name: string, arg: Option<string>): ArgStatus {
    if d == 0 then (if arg == Some("-b") then ArgOk else ArgIgnore)
    else if d == 1 then (if arg.Some? then ArgOk else ArgIllegal)
    else ArgNone
  }

  function ChoosyConfig(): Config {
    Config([Descriptor(0, "a", ""), Descriptor(1, "b", ""), Descriptor(2, "c", "")], Choosy, 0, false)
  }

  lemma ChoosyWords(next: string)
    ensures WordGroup(ChoosyConfig(), "-a", Some(next)) == (if next == "-b" then Parsed([Opt(0, "a", Some(next))], true) else Parsed([Opt(0, "a", None)], false))
    ensures WordGroup(ChoosyConfig(), "-b", Some(next)) == Parsed([Opt(1, "b", Some(next))], true)
    ensures WordGroup(ChoosyConfig(), "-c", Some(next)) == Parsed([Opt(2, "c", None)], false)
    ensures WordGroup(ChoosyConfig(), "-c", None) == Parsed([Opt(2, "c", None)], false)
  {
    var us := ChoosyConfig().usage;
    assert First(us, 0, Short('a')) == 0 by { assert 'a' in us[0].short; }
    assert First(us, 0, Short('b')) == 1 by { assert 'b' in us[1].short && 'b' !in us[0].short; }
    assert First(us, 0, Short('c')) == 2 by { assert 'c' in us[2].short && 'c' !in us[0].short && 'c' !in us[1].short; }
    assert "-a"[1..] == "a" && "-b"[1..] == "b" && "-c"[1..] == "c";
    assert "-a"[1] == 'a' && "-b"[1] == 'b' && "-c"[1] == 'c';
    hide First;
  }

  /** Where the comment fails: the vector is reordered by a successful GNU pass, and then the POSIX
      pass leaves an option among the remaining words which the GNU pass takes. */
  lemma FlagNotAlwaysIdle()
    ensures var cfg := ChoosyConfig();
            && var r := Scan(cfg, true, ["-a", "s", "-b", "y", "-c"]);
            && r.Done? && r.front == ["-a", "-b", "y", "-c"] && r.rest == ["s"]
            && var v := ["-a", "-b", "y", "-c", "s"];
            && Scan(cfg, true, v).Done? && Scan(cfg, true, v).rest == ["y", "s"]
            && Scan(cfg, false, v).Done? && Scan(cfg, false, v).rest == ["y", "-c", "s"]
  {
    var cfg := ChoosyConfig();
    ChoosyWords("s");
    ChoosyWords("-b");
    ChoosyWords("y");
    ChoosyWords("-c");
    hide WordGroup, ChoosyConfig;
    var args, v := ["-a", "s", "-b", "y", "-c"], ["-a", "-b", "y", "-c", "s"];
    assert args[1..] == ["s", "-b", "y", "-c"] && args[1..][1..] == ["-b", "y", "-c"] && ["-b", "y", "-c"][2..] == ["-c"] && ["-c"][1..] == [];
    assert ["-b", "y", "-c"][..2] == ["-b", "y"] && args[..1] == ["-a"];
    assert Scan(cfg, true, ["-c"]) == Done(["-c"], [Opt(2, "c", None)], []);
    assert Scan(cfg, true, ["-b", "y", "-c"]).front == ["-b", "y"] + ["-c"];
    assert v[2..] == ["y", "-c", "s"] && v[2..][1..] == ["-c", "s"] && ["-c", "s"][1..] == ["s"] && ["s"][1..] == [];
    assert v[..2] == ["-a", "-b"] && ["-c", "s"][..1] == ["-c"];
    assert Scan(cfg, true, ["s"]) == Done([], [], ["s"]);
    assert Scan(cfg, true, ["-c", "s"]) == Done(["-c"], [Opt(2, "c", None)], ["s"]);
  }
}
