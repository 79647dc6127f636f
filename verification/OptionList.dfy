/** Parsed options: circular linked lists whose wrap-around pointers are tagged, and the action
    that files each option under the index of its descriptor. */
module OptionList {
  import opened Wrappers

  datatype Val = Val(index: nat, name: string, arg: Option<string>)

  /** A pointer with its low bit. */
  datatype Link = Link(node: OptionNode, tagged: bool)

  /** `Option`; one without a value is an unused slot. */
  class OptionNode {
    var value: Option<Val>
    var prev: Link
    var next: Link

    constructor ()
      ensures value == None && Ring([this])
    {
      value := None;
      prev, next := Link(this, true), Link(this, true);
    }

    /** `init`, as used by assignment: the value is copied, and the node is a list by itself. */
    method Assign(v: Option<Val>)
      modifies this
      ensures value == v && Ring([this])
    {
      value := v;
      prev, next := Link(this, true), Link(this, true);
    }

    /** `first`. */
    method First(ghost l: seq<OptionNode>, ghost i: nat) returns (p: OptionNode)
      requires Ring(l) && i < |l| && l[i] == this
      ensures p == l[0]
    {
      p := this;
      ghost var j: int := i;
      while !p.prev.tagged
        invariant 0 <= j <= i && p == l[j]
        decreases j
      {
        p, j := p.prev.node, j - 1;
      }
    }

    /** `last`. */
    method Last(ghost l: seq<OptionNode>, ghost i: nat) returns (p: OptionNode)
      requires Ring(l) && i < |l| && l[i] == this
      ensures p == l[|l| - 1]
    {
      var f := First(l, i);
      p := f.prev.node;
    }

    /** `count`, from any member. */
    method Count(ghost l: seq<OptionNode>, ghost i: nat) returns (c: nat)
      requires Ring(l) && i < |l| && l[i] == this
      ensures c == |l| - if value.Some? then 0 else 1
    {
      c := if value.None? then 0 else 1;
      var p := First(l, i);
      ghost var j := 0;
      while !p.next.tagged
        invariant j < |l| && p == l[j] && c == j + if value.None? then 0 else 1
        decreases |l| - j
      {
        c := c + 1;
        p, j := p.next.node, j + 1;
      }
    }

    /** `append`, to the end of the list this node is in. */
    method Append(x: OptionNode, ghost l: seq<OptionNode>, ghost i: nat)
      requires Ring(l) && i < |l| && l[i] == this && x !in l
      modifies l`prev, l`next, x`prev, x`next
      ensures Ring(l + [x])
    {
      var p := Last(l, i);
      var f := First(l, i);
      p.next := Link(x, false);
      x.prev := Link(p, false);
      x.next := Link(f, true);
      f.prev := Link(x, true);
    }
  }

  /** A well-formed list: links in order both ways, the outer ones wrapped around and tagged. */
  ghost predicate Ring(l: seq<OptionNode>)
    reads l`prev, l`next
  {
    && |l| >= 1 && (forall i, j :: 0 <= i < j < |l| ==> l[i] != l[j])
    && (forall i {:trigger l[i].next} :: 0 <= i < |l| ==> l[i].next == if i + 1 < |l| then Link(l[i + 1], false) else Link(l[0], true))
    && (forall i {:trigger l[i].prev} :: 0 <= i < |l| ==> l[i].prev == if i > 0 then Link(l[i - 1], false) else Link(l[|l| - 1], true))
  }

  /** The list holds these values in order. */
  ghost predicate Values(l: seq<OptionNode>, vs: seq<Val>)
    reads l`value
  {
    |l| == |vs| && forall i :: 0 <= i < |l| ==> l[i].value == Some(vs[i])
  }

  /** The stored options with a given index, in command-line order. */
  function Having(stored: seq<Val>, idx: nat): seq<Val> {
    if stored == [] then []
    else var n := |stored| - 1; Having(stored[..n], idx) + if stored[n].index == idx then [stored[n]] else []
  }

  ghost predicate Distinct(ns: seq<OptionNode>) { forall i, j :: 0 <= i < j < |ns| ==> ns[i] != ns[j] }

  /** The slot for index `idx` heads the list of its options, or is unused. */
  ghost predicate Filed(l: seq<OptionNode>, head: OptionNode, vs: seq<Val>)
    reads l, head
  {
    Ring(l) && l[0] == head && if vs == [] then l == [head] && head.value == None else Values(l, vs)
  }

  ghost predicate Within(l: seq<OptionNode>, head: OptionNode, nodes: set<OptionNode>) {
    head in nodes && forall p :: 0 <= p < |l| ==> l[p] in nodes
  }

  /** Every slot heads its list. */
  ghost predicate AllFiled(lists: seq<seq<OptionNode>>, heads: seq<OptionNode>, vss: seq<seq<Val>>, nodes: set<OptionNode>)
    reads nodes
  {
    && |lists| == |heads| == |vss|
    && (forall i :: 0 <= i < |lists| ==> Within(lists[i], heads[i], nodes))
    && (forall i :: 0 <= i < |lists| ==> Filed(lists[i], heads[i], vss[i]))
  }

  ghost predicate Shares(l: seq<OptionNode>, m: seq<OptionNode>) { exists p :: 0 <= p < |l| && l[p] in m }

  /** No two lists share a node. */
  ghost predicate Disjoint(lists: seq<seq<OptionNode>>) {
    forall i, j :: 0 <= i < |lists| && 0 <= j < |lists| && i != j ==> !Shares(lists[i], lists[j])
  }

  ghost predicate Nowhere(x: OptionNode, lists: seq<seq<OptionNode>>) { forall i :: 0 <= i < |lists| ==> x !in lists[i] }

  /** Assigning to a node outside all lists changes none of them. */
  method AssignOutside(x: OptionNode, v: Val, ghost lists: seq<seq<OptionNode>>, ghost heads: seq<OptionNode>, ghost vss: seq<seq<Val>>, ghost nodes: set<OptionNode>)
    requires AllFiled(lists, heads, vss, nodes) && Nowhere(x, lists)
    modifies x
    ensures AllFiled(lists, heads, vss, nodes) && x.value == Some(v) && Ring([x])
  {
    HeadsInside(lists, heads, vss, nodes);
    hide Ring, Values;
    x.Assign(Some(v));
    forall i | 0 <= i < |lists|
      ensures Filed(lists[i], heads[i], vss[i])
    {
      assert old(Filed(lists[i], heads[i], vss[i]));
    }
  }

  lemma HeadsInside(lists: seq<seq<OptionNode>>, heads: seq<OptionNode>, vss: seq<seq<Val>>, nodes: set<OptionNode>)
    requires AllFiled(lists, heads, vss, nodes)
    ensures forall i :: 0 <= i < |lists| ==> lists[i] != [] && heads[i] == lists[i][0] && heads[i] in lists[i]
  {
  }

  /** The second and later options of an index are appended to its list. */
  method AppendTo(idx: nat, head: OptionNode, x: OptionNode, ghost v: Val, ghost lists: seq<seq<OptionNode>>, ghost heads: seq<OptionNode>,
                  ghost vss: seq<seq<Val>>, ghost nodes: set<OptionNode>)
    requires AllFiled(lists, heads, vss, nodes) && Disjoint(lists) && Nowhere(x, lists) && x in nodes && x.value == Some(v)
    requires idx < |lists| && head == heads[idx] && vss[idx] != []
    modifies lists[idx]`prev, lists[idx]`next, x`prev, x`next
    ensures AllFiled(lists[idx := lists[idx] + [x]], heads, vss[idx := vss[idx] + [v]], nodes)
  {
    HeadsInside(lists, heads, vss, nodes);
    ghost var l := lists[idx];
    forall i | 0 <= i < |lists| && i != idx
      ensures forall p :: 0 <= p < |lists[i]| ==> lists[i][p] !in l && lists[i][p] != x
    {
      assert !Shares(lists[i], lists[idx]);
    }
    assert Filed(l, head, vss[idx]);
    head.Append(x, l, 0);
    hide Ring;
    forall i | 0 <= i < |lists| && i != idx
      ensures Filed(lists[i], heads[i], vss[i])
    {
      assert old(Filed(lists[i], heads[i], vss[i]));
    }
    assert Values(l + [x], vss[idx] + [v]);
  }

  /** The first option of an index is copied into its slot. */
  method CopyTo(idx: nat, head: OptionNode, v: Val, ghost lists: seq<seq<OptionNode>>, ghost heads: seq<OptionNode>,
                ghost vss: seq<seq<Val>>, ghost nodes: set<OptionNode>)
    requires AllFiled(lists, heads, vss, nodes) && Disjoint(lists)
    requires idx < |lists| && head == heads[idx] && vss[idx] == []
    modifies head
    ensures AllFiled(lists, heads, vss[idx := [v]], nodes)
  {
    HeadsInside(lists, heads, vss, nodes);
    forall i | 0 <= i < |lists| && i != idx
      ensures forall p :: 0 <= p < |lists[i]| ==> lists[i][p] != head
    {
      assert !Shares(lists[i], lists[idx]);
    }
    assert Filed(lists[idx], head, vss[idx]);
    hide Ring;
    head.Assign(Some(v));
    forall i | 0 <= i < |lists| && i != idx
      ensures Filed(lists[i], heads[i], vss[i])
    {
      assert old(Filed(lists[i], heads[i], vss[i]));
    }
    assert Values(lists[idx], [v]);
  }

  lemma DisjointAppend(lists: seq<seq<OptionNode>>, idx: nat, x: OptionNode)
    requires Disjoint(lists) && Nowhere(x, lists) && idx < |lists|
    ensures Disjoint(lists[idx := lists[idx] + [x]])
    ensures forall y :: y != x && Nowhere(y, lists) ==> Nowhere(y, lists[idx := lists[idx] + [x]])
  {
    var more := lists[idx := lists[idx] + [x]];
    forall i, j | 0 <= i < |more| && 0 <= j < |more| && i != j
      ensures !Shares(more[i], more[j])
    {
      assert !Shares(lists[i], lists[j]);
    }
  }

  /** What filing option `v` in slot `x` does to the values of each list. */
  function FiledValues(vss: seq<seq<Val>>, v: Val): seq<seq<Val>>
    requires v.index < |vss|
  {
    vss[v.index := vss[v.index] + [v]]
  }

  lemma FiledHaving(vss: seq<seq<Val>>, stored: seq<Val>, v: Val)
    requires v.index < |vss| && forall i :: 0 <= i < |vss| ==> vss[i] == Having(stored, i)
    ensures forall i :: 0 <= i < |vss| ==> FiledValues(vss, v)[i] == Having(stored + [v], i)
  {
    assert (stored + [v])[..|stored|] == stored;
  }

  /** The body of `perform`: `x` is the next buffer slot. */
  method FileInto(x: OptionNode, head: OptionNode, v: Val, ghost lists: seq<seq<OptionNode>>, ghost heads: seq<OptionNode>,
                  ghost vss: seq<seq<Val>>, ghost nodes: set<OptionNode>) returns (ghost lists': seq<seq<OptionNode>>)
    requires AllFiled(lists, heads, vss, nodes) && Disjoint(lists) && Nowhere(x, lists) && x in nodes
    requires v.index < |lists| && head == heads[v.index]
    modifies x, head, lists[v.index]`prev, lists[v.index]`next
    ensures AllFiled(lists', heads, FiledValues(vss, v), nodes) && Disjoint(lists') && x.value == Some(v)
    ensures forall y :: y != x && Nowhere(y, lists) ==> Nowhere(y, lists')
  {
    hide Ring, Values, Disjoint, Nowhere;
    AssignOutside(x, v, lists, heads, vss, nodes);
    SlotUsed(lists, heads, vss, nodes, v.index);
    hide AllFiled;
    if head.value.Some? {
      AppendTo(v.index, head, x, v, lists, heads, vss, nodes);
      DisjointAppend(lists, v.index, x);
      lists' := lists[v.index := lists[v.index] + [x]];
    } else {
      lists' := lists;
      CopyTo(v.index, head, v, lists, heads, vss, nodes);
    }
  }

  lemma SlotUsed(lists: seq<seq<OptionNode>>, heads: seq<OptionNode>, vss: seq<seq<Val>>, nodes: set<OptionNode>, idx: nat)
    requires AllFiled(lists, heads, vss, nodes) && idx < |lists|
    ensures heads[idx].value.Some? <==> vss[idx] != []
    ensures vss[idx] == [] ==> forall v: Val :: vss[idx] + [v] == [v]
  {
    assert Filed(lists[idx], heads[idx], vss[idx]);
  }

  /** `StoreOptionAction`: `options` has a slot for each index, `buffer` one for each option. */
  class Store {
    const options: seq<OptionNode>
    const buffer: seq<OptionNode>
    const bufmax: int
    var opCount: nat
    ghost var lists: seq<seq<OptionNode>>
    ghost var vss: seq<seq<Val>>
    ghost var stored: seq<Val>

    ghost function Nodes(): set<OptionNode> { (set x | x in options) + (set x | x in buffer) }

    /** The buffer slots not in use are in no list. */
    ghost predicate SlotsFree()
      reads this
    {
      && Distinct(buffer) && (forall i, j :: 0 <= i < |options| && 0 <= j < |buffer| ==> options[i] != buffer[j])
      && (forall j :: opCount <= j < |buffer| ==> Nowhere(buffer[j], lists))
    }

    /** Each list holds exactly the stored options of its index, in order; the buffer holds all. */
    ghost predicate Valid()
      reads this, Nodes()
    {
      && opCount == |stored| <= |buffer| && bufmax <= |buffer| && SlotsFree()
      && Disjoint(lists) && AllFiled(lists, options, vss, Nodes())
      && (forall i :: 0 <= i < |vss| ==> vss[i] == Having(stored, i))
      && (forall j :: 0 <= j < opCount ==> buffer[j].value == Some(stored[j]))
    }

    /** Over unused slots, all of them different. */
    constructor (opts: seq<OptionNode>, buf: seq<OptionNode>, max: int)
      requires max <= |buf| && Distinct(opts + buf)
      requires forall i :: 0 <= i < |opts| ==> opts[i].value == None && Ring([opts[i]])
      ensures Valid() && options == opts && buffer == buf && bufmax == max && stored == []
    {
      options, buffer, bufmax, opCount := opts, buf, max, 0;
      lists, vss, stored := seq(|opts|, i requires 0 <= i < |opts| => [opts[i]]), seq(|opts|, _ => []), [];
      new;
      hide Ring;
      assert forall i :: 0 <= i < |opts| ==> (opts + buf)[i] == opts[i];
      assert forall j :: 0 <= j < |buf| ==> (opts + buf)[|opts| + j] == buf[j];
    }

    /** `options[idx].count()`. */
    method CountOf(idx: nat) returns (c: nat)
      requires Valid() && idx < |options|
      ensures c == |Having(stored, idx)|
    {
      assert Filed(lists[idx], options[idx], vss[idx]);
      c := options[idx].Count(lists[idx], 0);
    }

    /** From any option of an index, `first` and `last` are the first and last stored ones. */
    method Ends(x: OptionNode, ghost idx: nat, ghost i: nat) returns (first: OptionNode, last: OptionNode, count: nat)
      requires Valid() && idx < |options| && Having(stored, idx) != [] && i < |lists[idx]| && x == lists[idx][i]
      ensures count == |Having(stored, idx)| && first == options[idx]
      ensures first.value == Some(Having(stored, idx)[0]) && last.value == Some(Having(stored, idx)[count - 1])
    {
      assert Filed(lists[idx], options[idx], vss[idx]);
      first := x.First(lists[idx], i);
      last := x.Last(lists[idx], i);
      count := x.Count(lists[idx], i);
    }

    /** How many more options are stored: as many as fit the buffer, or an `int` count. */
    ghost function Room(): nat
      reads this
    {
      var top := if bufmax < 0 then INT_MAX else bufmax;
      if top <= opCount then 0 else top - opCount
    }

    /** A run of `perform` calls: the first options up to the room are stored, in order; it fails
        only if the count would overflow. */
    method PerformAll(vs: seq<Val>) returns (ok: bool)
      requires Valid() && (forall i :: 0 <= i < |vs| ==> vs[i].index < |options|) && (bufmax < 0 ==> opCount + |vs| <= |buffer|)
      requires opCount <= INT_MAX && bufmax <= INT_MAX
      modifies this`opCount, this`lists, this`vss, this`stored, Nodes()
      ensures Valid() && (ok <==> bufmax >= 0 || |vs| <= old(Room()))
      ensures var k := if |vs| <= old(Room()) then |vs| else old(Room()); stored == old(stored) + vs[..k]
    {
      ghost var room := Room();
      for i := 0 to |vs|
        invariant Valid() && opCount <= INT_MAX && (bufmax < 0 ==> opCount + |vs| - i <= |buffer| && i <= room)
        invariant stored == old(stored) + if i <= room then vs[..i] else vs[..room]
      {
        ok := Perform(vs[i]);
        if !ok {
          return;
        }
      }
      return true;
    }

    /** `perform`: an option beyond the buffer's end is dropped, which is no error. */
    method Perform(v: Val) returns (ok: bool)
      requires Valid() && v.index < |options| && (bufmax < 0 ==> opCount < |buffer|)
      modifies this`opCount, this`lists, this`vss, this`stored, Nodes()
      ensures Valid()
      ensures ok <==> (bufmax < 0 || old(opCount) < bufmax ==> old(opCount) != INT_MAX)
      ensures stored == if ok && (bufmax < 0 || old(opCount) < bufmax) then old(stored) + [v] else old(stored)
    {
      if bufmax < 0 || opCount < bufmax {
        if opCount == INT_MAX {
          return false;
        }
        FileIt(v);
      }
      return true;
    }

    method FileIt(v: Val)
      requires Valid() && v.index < |options| && opCount < |buffer|
      modifies this`opCount, this`lists, this`vss, this`stored, Nodes()
      ensures Valid() && stored == old(stored) + [v]
    {
      hide AllFiled, Disjoint, Nowhere;
      ListsWithin(lists, options, vss, Nodes());
      ghost var lists';
      lists' := FileInto(buffer[opCount], options[v.index], v, lists, options, vss, Nodes());
      FiledHaving(vss, stored, v);
      lists, vss := lists', FiledValues(vss, v);
      stored := stored + [v];
      opCount := opCount + 1;
    }
  }

  lemma ListsWithin(lists: seq<seq<OptionNode>>, heads: seq<OptionNode>, vss: seq<seq<Val>>, nodes: set<OptionNode>)
    requires AllFiled(lists, heads, vss, nodes)
    ensures |lists| == |heads| == |vss| && forall i :: 0 <= i < |lists| ==> forall x :: x in lists[i] ==> x in nodes
  {
  }
}
