/** What a pass does to the argument vector. */
module ArgTheorems {
  import opened Wrappers
  import opened ArgSpec

  // ----- the reordering is a stable partition -----

  /** Which words of the vector are options, arguments of options, or the end mark. */
  function Mask(cfg: Config, gnu: bool, args: seq<string>): (m: seq<bool>)
    ensures |m| == |args|
    decreases |args|
  {
    if args == [] then []
    else if !IsOption(args[0]) then
      if gnu then [false] + Mask(cfg, gnu, args[1..]) else seq(|args|, _ => false)
    else if IsEnd(args[0]) then [true] + seq(|args| - 1, _ => false)
    else
      match WordGroup(cfg, args[0], NextOf(args))
      case Fatal(_) => seq(|args|, _ => false)
      case Parsed(_, consumed) =>
        if consumed then [true, true] + Mask(cfg, gnu, args[2..]) else [true] + Mask(cfg, gnu, args[1..])
  }

  /** The elements marked `b`, in their order. */
  function Select<T>(s: seq<T>, m: seq<bool>, b: bool): seq<T>
    requires |s| == |m|
  {
    if s == [] then [] else (if m[0] == b then [s[0]] else []) + Select(s[1..], m[1..], b)
  }

  lemma {:induction false} SelectConstant<T>(s: seq<T>, m: seq<bool>, b: bool)
    requires |s| == |m| && forall i :: 0 <= i < |m| ==> m[i] == b
    ensures Select(s, m, b) == s && Select(s, m, !b) == []
  {
    if s != [] {
      SelectConstant(s[1..], m[1..], b);
    }
  }

  /** How many words an option word takes up. */
  function Taken(cfg: Config, args: seq<string>): (k: nat)
    requires args != [] && IsOption(args[0])
    ensures 1 <= k <= |args|
  {
    match WordGroup(cfg, args[0], NextOf(args))
    case Fatal(_) => 1
    case Parsed(_, consumed) => if consumed then 2 else 1
  }

  /** One option word of a pass. */
  lemma ScanWord(cfg: Config, gnu: bool, args: seq<string>)
    requires args != [] && IsOption(args[0]) && !IsEnd(args[0]) && WordGroup(cfg, args[0], NextOf(args)).Parsed?
    ensures var g, k := WordGroup(cfg, args[0], NextOf(args)), Taken(cfg, args);
            Scan(cfg, gnu, args) == Then(args[..k], g.opts, [], Scan(cfg, gnu, args[k..]))
  {
    hide WordGroup;
  }

  lemma MaskWord(cfg: Config, gnu: bool, args: seq<string>)
    requires args != [] && IsOption(args[0]) && !IsEnd(args[0]) && WordGroup(cfg, args[0], NextOf(args)).Parsed?
    ensures var k := Taken(cfg, args);
            Mask(cfg, gnu, args) == seq(k, _ => true) + Mask(cfg, gnu, args[k..])
  {
    hide WordGroup;
  }

  lemma {:induction false} SelectConcat<T>(s: seq<T>, m: seq<bool>, t: seq<T>, n: seq<bool>, b: bool)
    requires |s| == |m| && |t| == |n|
    ensures Select(s + t, m + n, b) == Select(s, m, b) + Select(t, n, b)
  {
    if s == [] {
      assert s + t == t && m + n == n;
    } else {
      var u, v := s + t, m + n;
      SelectConcat(s[1..], m[1..], t, n, b);
      assert u[1..] == s[1..] + t && v[1..] == m[1..] + n && u[0] == s[0] && v[0] == m[0];
      assert Select(u, v, b) == (if m[0] == b then [s[0]] else []) + (Select(s[1..], m[1..], b) + Select(t, n, b));
    }
  }

  lemma PartitionWord(cfg: Config, gnu: bool, args: seq<string>)
    requires args != [] && IsOption(args[0]) && !IsEnd(args[0]) && Scan(cfg, gnu, args).Done?
    ensures WordGroup(cfg, args[0], NextOf(args)).Parsed? && Scan(cfg, gnu, args[Taken(cfg, args)..]).Done?
    ensures var k := Taken(cfg, args);
            var r, s, m := Scan(cfg, gnu, args), Scan(cfg, gnu, args[k..]), Mask(cfg, gnu, args[k..]);
            && r.front == args[..k] + s.front && r.rest == s.rest
            && forall b :: Select(args, Mask(cfg, gnu, args), b) == (if b then args[..k] else []) + Select(args[k..], m, b)
  {
    hide WordGroup;
    var k := Taken(cfg, args);
    ScanWord(cfg, gnu, args);
    MaskWord(cfg, gnu, args);
    hide Scan, Mask;
    assert args == args[..k] + args[k..];
    SelectConstant(args[..k], seq(k, _ => true), true);
    SelectConcat(args[..k], seq(k, _ => true), args[k..], Mask(cfg, gnu, args[k..]), true);
    SelectConcat(args[..k], seq(k, _ => true), args[k..], Mask(cfg, gnu, args[k..]), false);
  }

  /** A successful pass splits the vector in two without changing the order in either part. */
  lemma {:induction false} StablePartition(cfg: Config, gnu: bool, args: seq<string>)
    requires Scan(cfg, gnu, args).Done?
    ensures Scan(cfg, gnu, args).front == Select(args, Mask(cfg, gnu, args), true)
    ensures Scan(cfg, gnu, args).rest == Select(args, Mask(cfg, gnu, args), false)
    decreases |args|
  {
    hide WordGroup, IsOption, IsEnd;
    if args != [] {
      var m := Mask(cfg, gnu, args);
      if !IsOption(args[0]) {
        if gnu {
          StablePartition(cfg, gnu, args[1..]);
          assert m[1..] == Mask(cfg, gnu, args[1..]);
        } else {
          SelectConstant(args, m, false);
        }
      } else if IsEnd(args[0]) {
        SelectConstant(args[1..], m[1..], false);
      } else {
        PartitionWord(cfg, gnu, args);
        StablePartition(cfg, gnu, args[Taken(cfg, args)..]);
      }
    }
  }

  lemma {:induction false} SelectAll<T>(s: seq<T>, m: seq<bool>)
    requires |s| == |m|
    ensures multiset(Select(s, m, true)) + multiset(Select(s, m, false)) == multiset(s)
  {
    if s != [] {
      SelectAll(s[1..], m[1..]);
      assert s == [s[0]] + s[1..];
    }
  }

  /** No word is lost or doubled. */
  lemma NothingLost(cfg: Config, gnu: bool, args: seq<string>)
    requires Scan(cfg, gnu, args).Done?
    ensures var r := Scan(cfg, gnu, args); multiset(r.front + r.rest) == multiset(args)
  {
    StablePartition(cfg, gnu, args);
    SelectAll(args, Mask(cfg, gnu, args));
  }
}
