/** What a pass over an argument vector means: which words are options, how a word is matched
    against the usage table, and what the parser reports. */
module ArgSpec {
  import opened Wrappers

  datatype Descriptor = Descriptor(index: nat, short: string, long: string)

  datatype ArgStatus = ArgNone | ArgOk | ArgIgnore | ArgIllegal

  /** A parsed option: the position of its descriptor, its name as it stands in the word, and
      its argument. */
  datatype Opt = Opt(desc: nat, name: string, arg: Option<string>)

  datatype Config = Config(usage: seq<Descriptor>, check: (nat, string, Option<string>) -> ArgStatus,
                           minAbbr: int, singleMinus: bool)

  /** A lone minus is no option. */
  predicate IsOption(w: string) { |w| >= 2 && w[0] == '-' }

  predicate IsEnd(w: string) { w == "--" }

  // ----- matching -----

  /** `streq`: `b` is `a`, possibly with an attached argument. */
  predicate NameMatches(a: string, b: string) { a <= b && (|b| == |a| || b[|a|] == '=') }

  function Common(a: string, b: string): (k: nat)
    ensures k <= |a| && k <= |b| && a[..k] == b[..k]
    ensures k < |a| && k < |b| ==> a[k] != b[k]
  {
    if a == [] || b == [] || a[0] != b[0] then 0 else 1 + Common(a[1..], b[1..])
  }

  /** `streqabbr`: at least `min` characters of `a`, then possibly an attached argument. */
  predicate AbbrMatches(a: string, b: string, min: int) {
    var k := Common(a, b);
    (k == |a| || (min > 0 && k >= min)) && (k == |b| || b[k] == '=')
  }

  /** The first entry from `i` on that satisfies `p`, or the end of the table. */
  function First(us: seq<Descriptor>, i: nat, p: Descriptor -> bool): (r: nat)
    requires i <= |us|
    ensures i <= r <= |us| && (r < |us| ==> p(us[r])) && forall j :: i <= j < r ==> !p(us[j])
    decreases |us| - i
  {
    if i == |us| || p(us[i]) then i else First(us, i + 1, p)
  }

  function Exact(name: string): Descriptor -> bool { (d: Descriptor) => NameMatches(d.long, name) }

  function Abbreviated(name: string, min: int): Descriptor -> bool { (d: Descriptor) => AbbrMatches(d.long, name, min) }

  function Short(c: char): Descriptor -> bool { (d: Descriptor) => c in d.short }

  function Dummy(): Descriptor -> bool { (d: Descriptor) => d.short == "" && d.long == "" }

  /** An exact match, else an unambiguous abbreviation, else the end of the table. */
  function LongIndex(cfg: Config, name: string): (r: nat)
    ensures r <= |cfg.usage|
  {
    var us := cfg.usage;
    var e := First(us, 0, Exact(name));
    if e < |us| || cfg.minAbbr <= 0 then e
    else
      var i := First(us, 0, Abbreviated(name, cfg.minAbbr));
      if i < |us| && First(us, i + 1, Abbreviated(name, cfg.minAbbr)) == |us| then i else |us|
  }

  /** The descriptor used: the matching one, or the entry for unknown options. */
  function Chosen(cfg: Config, i: nat): (r: Option<nat>)
    ensures r.Some? ==> r.value < |cfg.usage|
  {
    if i < |cfg.usage| then Some(i)
    else var d := First(cfg.usage, 0, Dummy()); if d < |cfg.usage| then Some(d) else None
  }

  function IndexOf(c: char, s: string): (r: nat)
    ensures r <= |s| && (r < |s| ==> s[r] == c) && forall j :: 0 <= j < r ==> s[j] != c
  {
    if s == [] || s[0] == c then 0 else 1 + IndexOf(c, s[1..])
  }

  /** What follows the first equals sign. */
  function Attached(name: string): Option<string> {
    var e := IndexOf('=', name);
    if e < |name| then Some(name[e + 1..]) else None
  }

  // ----- one word -----

  datatype Single = Skip | Bad | Took(opt: Opt, usesNext: bool) | Plain(opt: Opt)

  /** One option: its argument is attached or, if there is one, the next word. */
  function One(cfg: Config, d: Option<nat>, name: string, attached: Option<string>, next: Option<string>): Single {
    if d.None? then Skip
    else
      var arg := if attached.Some? then attached else next;
      match cfg.check(d.value, name, arg)
      case ArgIllegal => Bad
      case ArgOk => Took(Opt(d.value, name, arg), attached.None? && next.Some?)
      case _ => Plain(Opt(d.value, name, None))
  }

  /** The options of a word, and whether the next word was their argument. */
  datatype Group = Fatal(opts: seq<Opt>) | Parsed(opts: seq<Opt>, consumed: bool)

  function After(opts: seq<Opt>, g: Group): Group {
    match g
    case Fatal(os) => Fatal(opts + os)
    case Parsed(os, c) => Parsed(opts + os, c)
  }

  function LongGroup(cfg: Config, w: string, name: string, next: Option<string>): (g: Group)
    ensures g.Parsed? && g.consumed ==> next.Some?
  {
    match One(cfg, Chosen(cfg, LongIndex(cfg, name)), w, Attached(name), next)
    case Skip => Parsed([], false)
    case Bad => Fatal([])
    case Took(o, u) => Parsed([o], u)
    case Plain(o) => Parsed([o], false)
  }

  /** The short options of a word from position `p` on. */
  function ShortGroup(cfg: Config, w: string, p: nat, next: Option<string>): (g: Group)
    ensures g.Parsed? && g.consumed ==> next.Some?
    decreases |w| - p
  {
    if p >= |w| then Parsed([], false)
    else
      var attached := if p + 1 < |w| then Some(w[p + 1..]) else None;
      match One(cfg, Chosen(cfg, First(cfg.usage, 0, Short(w[p]))), w[p..], attached, next)
      case Skip => ShortGroup(cfg, w, p + 1, next)
      case Bad => Fatal([])
      case Took(o, u) => Parsed([o], u)
      case Plain(o) => After([o], ShortGroup(cfg, w, p + 1, next))
  }

  function WordGroup(cfg: Config, w: string, next: Option<string>): (g: Group)
    requires IsOption(w)
    ensures g.Parsed? && g.consumed ==> next.Some?
  {
    if w[1] == '-' then LongGroup(cfg, w, w[2..], next)
    else if cfg.singleMinus && LongIndex(cfg, w[1..]) < |cfg.usage| then LongGroup(cfg, w, w[1..], next)
    else ShortGroup(cfg, w, 1, next)
  }

  // ----- the whole vector -----

  /** A successful pass: the words of the option part, the options they hold, and the
      remaining words. */
  datatype Scanned = Failed(opts: seq<Opt>) | Done(front: seq<string>, opts: seq<Opt>, rest: seq<string>)

  function Then(front: seq<string>, opts: seq<Opt>, rest: seq<string>, r: Scanned): Scanned {
    match r
    case Failed(os) => Failed(opts + os)
    case Done(f, os, n) => Done(front + f, opts + os, rest + n)
  }

  function NextOf(args: seq<string>): Option<string> { if |args| > 1 then Some(args[1]) else None }

  function Scan(cfg: Config, gnu: bool, args: seq<string>): Scanned
    decreases |args|
  {
    if args == [] then Done([], [], [])
    else
      var w := args[0];
      if !IsOption(w) then
        if gnu then Then([], [], [w], Scan(cfg, gnu, args[1..])) else Done([], [], args)
      else if IsEnd(w) then Done([w], [], args[1..])
      else
        match WordGroup(cfg, w, NextOf(args))
        case Fatal(os) => Failed(os)
        case Parsed(os, consumed) =>
          var k := if consumed then 2 else 1;
          Then(args[..k], os, [], Scan(cfg, gnu, args[k..]))
  }
}
