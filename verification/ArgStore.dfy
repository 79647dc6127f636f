/** A command line from start to end: sizing, allocating, parsing and filing. */
module ArgStore {
  import opened Wrappers
  import opened ArgSpec
  import opened ArgReparse
  import opened ArgParser
  import opened OptionList

  /** A parsed option as it is stored. */
  function Stored(cfg: Config, o: Opt): Val
    requires o.desc < |cfg.usage|
  {
    Val(cfg.usage[o.desc].index, o.name, o.arg)
  }

  function AllStored(cfg: Config, opts: seq<Opt>): seq<Val>
    requires InTable(cfg, opts)
  {
    seq(|opts|, i requires 0 <= i < |opts| => Stored(cfg, opts[i]))
  }

  /** Unused option slots. */
  method NewSlots(n: nat) returns (slots: seq<OptionNode>)
    ensures |slots| == n && Distinct(slots) && forall i :: 0 <= i < n ==> fresh(slots[i])
    ensures forall i :: 0 <= i < n ==> slots[i].value == None && Ring([slots[i]])
  {
    slots := [];
    for k := 0 to n
      invariant |slots| == k && Distinct(slots) && forall i :: 0 <= i < k ==> fresh(slots[i])
      invariant forall i :: 0 <= i < k ==> slots[i].value == None && Ring([slots[i]])
    {
      var x := new OptionNode();
      slots := slots + [x];
    }
  }

  /** The slot of each index heads the list of exactly the options with that index. */
  ghost predicate FiledByIndex(store: Store, vs: seq<Val>)
    requires |store.lists| == |store.options|
    reads store, store.Nodes()
  {
    forall idx :: 0 <= idx < |store.options| ==>
      Within(store.lists[idx], store.options[idx], store.Nodes()) && Filed(store.lists[idx], store.options[idx], Having(vs, idx))
  }

  /** The buffer sized by the first pass holds what the second one finds: what the parser demands
      of its caller when no buffer length is passed. */
  ghost predicate BufferSuffices(cfg: Config, gnu: bool, args: seq<string>) {
    var r := Scan(cfg, true, args);
    r.Done? ==> |Scan(cfg, gnu, r.front + r.rest).opts| <= |r.opts| + 1
  }

  lemma SettledSuffices(cfg: Config, gnu: bool, args: seq<string>)
    requires Settled(cfg)
    ensures BufferSuffices(cfg, gnu, args)
  {
    hide Scan, Settled;
    SettledRepeats(cfg);
  }

  /** What a program does: size in GNU mode, allocate what the sizes say, parse in any mode and
      file.  Nothing is dropped, and each list holds exactly the options of its index that the
      pass accepted, in order; for settled checkers these are all of the command line's. */
  method ReadCommandLine(cfg: Config, gnu: bool, a: array<string>)
    returns (sized: bool, store: Store?, first: nat, ghost opts: seq<Opt>)
    requires BufferSuffices(cfg, gnu, a[..])
    modifies a
    ensures var r := Scan(cfg, true, old(a[..]));
            && (sized <==> r.Done? && |r.opts| <= INT_MAX - 1) && (sized <==> store != null)
            && (sized ==> opts == Accepted(Scan(cfg, gnu, r.front + r.rest).opts, INT_MAX))
            && (sized && Settled(cfg) ==> a[..] == r.front + r.rest && first == |r.front| && opts == r.opts)
    ensures sized ==> fresh(store) && store.Valid() && |store.lists| == |store.options| && InTable(cfg, opts)
    ensures sized ==> store.stored == AllStored(cfg, opts) && FiledByIndex(store, AllStored(cfg, opts))
    ensures sized ==> |store.stored| == |opts| && forall i :: 0 <= i < |opts| ==>
              store.stored[i].index == cfg.usage[opts[i].desc].index && store.stored[i].name == opts[i].name && store.stored[i].arg == opts[i].arg
    ensures sized ==> forall i :: 0 <= i < |cfg.usage| ==> cfg.usage[i].index < |store.options|
  {
    hide Scan, Settled, Ring, Store.Valid;
    var bufferMax, optionsMax, ok, found;
    sized, bufferMax, optionsMax, ok, found, first := SizeThenParse(cfg, gnu, a);
    opts := found;
    if !sized {
      return false, null, 0, [];
    }
    store := Fill(cfg, found, optionsMax, bufferMax);
  }

  method Fill(cfg: Config, opts: seq<Opt>, optionsMax: nat, bufferMax: nat) returns (store: Store)
    requires InTable(cfg, opts) && |opts| <= bufferMax && |opts| <= INT_MAX
    requires forall i :: 0 <= i < |opts| ==> cfg.usage[opts[i].desc].index < optionsMax
    ensures fresh(store) && store.Valid() && |store.lists| == |store.options| == optionsMax && store.stored == AllStored(cfg, opts)
    ensures FiledByIndex(store, AllStored(cfg, opts))
  {
    hide Ring;
    var options := NewSlots(optionsMax);
    var buffer := NewSlots(bufferMax);
    store := new Store(options, buffer, -1);
    var vs := AllStored(cfg, opts);
    var all := store.PerformAll(vs);
    assert vs[..|vs|] == vs;
  }
}
