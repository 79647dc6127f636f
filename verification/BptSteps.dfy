/** The steps of `bpt_internal::set` on the whole state of a tree: a leaf insertion, a child
    insertion, a node split, each with what it keeps. */
module BptSteps {
  import opened Wrappers
  import opened LeafLists
  import opened BptShape
  import opened BptChain
  import opened BptHeap
  import opened BptLeaves

  /** Everything the proof keeps about a tree: the abstract map, the internal nodes, the leaf
      chain, and the objects in use. */
  datatype State<V> = State(order: nat, contents: map<int, V>,
                            g: InnerMap<V>, lm: LeafMap<V>, om: OwnerMap<V>,
                            chain: seq<Leaf<V>>, vals: seq<LeafVal<V>>,
                            lists: set<LeafList<V>>, cells: set<Cell<V>>)

  /** The chain is what the leaf map knows. */
  ghost predicate Placed<V>(chain: seq<Leaf<V>>, vals: seq<LeafVal<V>>, lm: LeafMap<V>) {
    && |chain| == |vals|
    && (forall i :: 0 <= i < |chain| ==> chain[i] in lm && lm[chain[i]].lo == vals[i].lo && lm[chain[i]].hi == vals[i].hi)
    && (forall l :: l in lm ==> l in chain)
  }

  /** The heap holds what the maps say of every internal node; `x`, if any, ends at `xh`. */
  ghost predicate NodesHold<V>(g: InnerMap<V>, om: OwnerMap<V>, x: Internal?<V>, xh: int)
    reads g.Keys, om.Keys
  {
    && (forall y :: y in om ==> y.key > FLOOR)
    && (forall q :: q in g ==> Owns(q, g[q].live, om) && FLOOR <= g[q].lo)
    && (forall q :: q in g ==> Holds(q, g[q].lesser, g[q].live, g[q].kids, if q == x then xh else g[q].hi))
  }

  /** Every internal node but `x` is within capacity. */
  ghost predicate SizesOK<V>(g: InnerMap<V>, cap: int, x: Internal?<V>) {
    forall q :: q in g && q != x ==> |g[q].live| <= cap
  }

  /** All internal nodes are in order and within capacity; `x`, if any, answers only up to `xh`. */
  ghost predicate InnersOK<V>(s: State<V>, x: Internal?<V>, xh: int)
    reads s.g.Keys, s.om.Keys
  {
    AllInner(s.g, s.lm, s.om, x, xh) && NodesHold(s.g, s.om, x, xh) && SizesOK(s.g, s.order - 1, null)
  }

  /** All internal nodes are in order; `n` may be one over capacity. */
  ghost predicate InnersOver<V>(s: State<V>, n: Internal<V>)
    reads s.g.Keys, s.om.Keys
  {
    && AllInner(s.g, s.lm, s.om, null, 0) && NodesHold(s.g, s.om, null, 0) && SizesOK(s.g, s.order - 1, n)
    && n in s.g && |s.g[n].live| <= s.order
  }

  /** The leaf chain stores the abstract map. */
  ghost predicate ChainHolds<V>(s: State<V>)
    reads s.chain`next, s.lists, s.cells
  {
    && ChainOK(s.vals, s.contents) && Placed(s.chain, s.vals, s.lm) && LeafLinks(s.chain)
    && AllStore(s.chain, s.vals, s.lists, s.cells) && AllApart(s.chain, s.lists)
  }

  ghost predicate WithinCapacity<V>(vals: seq<LeafVal<V>>, cap: int) {
    forall i :: 0 <= i < |vals| ==> |vals[i].entries| <= cap
  }

  /** The leaf chain stores the abstract map, every leaf within capacity. */
  ghost predicate LeavesOK<V>(s: State<V>)
    reads s.chain`next, s.lists, s.cells
  {
    ChainHolds(s) && WithinCapacity(s.vals, s.order - 1)
  }

  // ----- lookup -----

  /** The leaf a key is routed to holds the map's binding for it. */
  lemma RoutedLeaf<V>(s: State<V>, l: Leaf<V>, k: int)
    requires LeavesOK(s) && l in s.lm && s.lm[l].lo <= k < s.lm[l].hi
    ensures l.list.Valid() && Find(l.list.entries, k) == Look(s.contents, k)
  {
    var i :| 0 <= i < |s.chain| && s.chain[i] == l;
    assert Stores(s.chain[i], s.vals[i].entries, s.lists, s.cells);
    assert Agrees(s.vals[i], s.contents);
  }

  lemma FirstInChain<V>(s: State<V>, l: Leaf<V>)
    requires LeavesOK(s) && l in s.lm && s.lm[l].lo == FLOOR
    ensures s.chain != [] && l == s.chain[0]
  {
    var i :| 0 <= i < |s.chain| && s.chain[i] == l;
    assert LeafOK(s.vals[0]);
  }

  /** What the invariant says about one node and the child a key is routed to. */
  lemma NodeFacts<V>(s: State<V>, n: Internal<V>)
    requires InnersOK(s, null, 0) && n in s.g
    ensures Inner(n, s.g[n].hi, s.g, s.lm, s.om) && FLOOR <= s.g[n].lo && s.g[n].live[0].key > FLOOR
    ensures Holds(n, s.g[n].lesser, s.g[n].live, s.g[n].kids, s.g[n].hi) && |s.g[n].live| <= s.order - 1
    ensures forall j {:trigger KidAt(s.g[n], j)} :: -1 <= j < |s.g[n].live| ==>
              KidOK(n, KidAt(s.g[n], j), KidLow(s.g[n], j), KidHigh(s.g[n], j, s.g[n].hi), s.g, s.lm)
  {
    assert Inner(n, s.g[n].hi, s.g, s.lm, s.om);
    KidsByIndex(n, s.g[n].hi, s.g[n], s.g, s.lm);
  }

  /** The position of the last live node whose key is not above `k`, or `-1`. */
  function Route<V>(live: seq<ListNode<V>>, k: int): (j: int)
    ensures -1 <= j < |live| && (j >= 0 ==> live[j].key <= k) && forall i :: j < i < |live| ==> k < live[i].key
  {
    if live == [] then -1 else if live[|live| - 1].key <= k then |live| - 1 else Route(live[..|live| - 1], k)
  }

  lemma RouteIs<V>(I: Info<V>, h: int, k: int, j: int)
    requires KeysOK(I.live, I.lo, h) && |I.kids| == |I.live| && I.lo <= k < h
    ensures KidLow(I, Route(I.live, k)) <= k < KidHigh(I, Route(I.live, k), h)
    ensures -1 <= j < |I.live| && KidLow(I, j) <= k < KidHigh(I, j, h) ==> j == Route(I.live, k)
  {
    hide Route;
    var r := Route(I.live, k);
    if -1 <= j < |I.live| && KidLow(I, j) <= k < KidHigh(I, j, h) {
      if j < r {
        assert j + 1 == r || I.live[j + 1].key < I.live[r].key;
      }
    }
  }

  /** The leaf that routing from node `n` leads to. */
  ghost function Reached<V>(s: State<V>, n: Internal<V>, k: int): (l: Leaf<V>)
    requires InnersOK(s, null, 0) && n in s.g && s.g[n].lo <= k < s.g[n].hi
    reads s.g.Keys, s.om.Keys
    ensures l in s.lm && s.lm[l].lo <= k < s.lm[l].hi
    decreases s.g[n].rank
  {
    hide InnersOK;
    NodeFacts(s, n);
    var I := s.g[n];
    RouteIs(I, I.hi, k, 0);
    match KidAt(I, Route(I.live, k))
    case L(l) => l
    case N(m) => Reached(s, m, k)
  }

  /** `get_val_ptr`: routes the key down to a leaf. */
  method Lookup<V>(n: Internal<V>, k: int, ghost s: State<V>) returns (r: Option<V>, ghost leaf: Leaf<V>)
    requires InnersOK(s, null, 0) && LeavesOK(s) && n in s.g && s.g[n].lo <= k < s.g[n].hi
    ensures r == Look(s.contents, k) && leaf == Reached(s, n, k)
    decreases s.g[n].rank
  {
    hide InnersOK, LeavesOK, Route;
    NodeFacts(s, n);
    var c;
    ghost var j;
    c, j := RouteStep(n, k, s.g[n], s.g[n].hi);
    RouteIs(s.g[n], s.g[n].hi, k, j);
    match c {
      case L(l) =>
        RoutedLeaf(s, l, k);
        r := l.list.Get(k);
        leaf := l;
      case N(m) =>
        r, leaf := Lookup(m, k, s);
    }
  }

  /** `bpt_internal::iterate`: down the lesser children to the first leaf. */
  method FirstLeaf<V>(n: Internal<V>, ghost s: State<V>) returns (l: Leaf<V>)
    requires InnersOK(s, null, 0) && LeavesOK(s) && n in s.g && s.g[n].lo == FLOOR
    ensures s.chain != [] && l == s.chain[0]
    decreases s.g[n].rank
  {
    hide InnersOK, LeavesOK;
    NodeFacts(s, n);
    match n.lesser {
      case L(x) =>
        FirstInChain(s, x);
        l := x;
      case N(m) =>
        l := FirstLeaf(m, s);
    }
  }

  lemma ChainStep<V>(s: State<V>, i: nat)
    requires LeavesOK(s) && i < |s.chain|
    ensures |s.chain| == |s.vals| && s.chain[i].list.Valid() && s.chain[i].list.entries == s.vals[i].entries
    ensures s.chain[i].next == if i + 1 < |s.chain| then s.chain[i + 1] else null
    ensures forall out :: out + Flatten(s.vals[i..]) == (out + s.vals[i].entries) + Flatten(s.vals[i + 1..])
  {
    assert Stores(s.chain[i], s.vals[i].entries, s.lists, s.cells);
    assert s.vals[i..][1..] == s.vals[i + 1..];
    assert i + 1 < |s.chain| ==> s.chain[i].next == s.chain[i + 1];
  }

  /** `leaf::iterate`: along the chain from its first leaf. */
  method WalkChain<V>(first: Leaf<V>, ghost s: State<V>) returns (out: seq<Entry<V>>)
    requires LeavesOK(s) && |s.chain| == |s.vals| && s.chain != [] && first == s.chain[0]
    ensures out == Flatten(s.vals)
  {
    hide LeavesOK, LeafList.Valid, Flatten;
    out := [];
    var l: Leaf?<V> := first;
    ghost var i := 0;
    assert s.vals[0..] == s.vals;
    while l != null
      invariant 0 <= i <= |s.chain| && l == (if i < |s.chain| then s.chain[i] else null)
      invariant out + Flatten(s.vals[i..]) == Flatten(s.vals)
      invariant LeavesOK(s)
      decreases |s.chain| - i
    {
      ChainStep(s, i);
      var next := l.next;
      out := l.list.Iterate(out);
      l, i := next, i + 1;
    }
    assert s.vals[i..] == [];
    FlattenNone<V>();
  }

  lemma FlattenNone<V>()
    ensures forall out: seq<Entry<V>> :: out + Flatten([]) == out
  {
  }

  // ----- the leaf part of set -----

  lemma ChainDistinct<V>(s: State<V>)
    requires ChainHolds(s)
    ensures forall a, b :: 0 <= a < b < |s.chain| ==> s.chain[a] != s.chain[b]
  {
    forall a, b | 0 <= a < b < |s.chain|
      ensures s.chain[a] != s.chain[b]
    {
      assert LeafOK(s.vals[a]) && s.vals[a].hi <= s.vals[b].lo;
    }
  }

  /** The state after entry `k := v` went into leaf `i`. */
  ghost function PutState<V>(s: State<V>, i: nat, k: int, v: V, cells: set<Cell<V>>): State<V>
    requires i < |s.vals|
  {
    s.(contents := s.contents[k := v], cells := cells,
       vals := s.vals[i := s.vals[i].(entries := Put(s.vals[i].entries, k, v))])
  }

  /** `m_list.set` on the leaf a key is routed to; it may end up over capacity. */
  method PutEntry<V>(l: Leaf<V>, ghost i: nat, k: int, v: V, ghost s: State<V>) returns (ghost s': State<V>)
    requires ChainHolds(s) && i < |s.chain| && s.chain[i] == l && s.lm[l].lo <= k < s.lm[l].hi
    modifies l.list, l.list.cells
    ensures s' == PutState(s, i, k, v, s'.cells) && ChainHolds(s')
    ensures s.cells <= s'.cells && fresh(s'.cells - s.cells)
    ensures l.list.size == |s'.vals[i].entries|
    ensures forall p :: 0 <= p < |l.list.cells| ==> l.list.cells[p] in old(l.list.cells) || fresh(l.list.cells[p])
  {
    hide AllStore, AllApart, ChainOK, LeafLinks;
    ChainPut(s.vals, s.contents, i, k, v);
    ghost var cells := SetAt(l, i, k, v, s.chain, s.vals, s.lists, s.cells);
    s' := PutState(s, i, k, v, cells);
  }

  lemma PlacedSplit<V>(chain: seq<Leaf<V>>, vals: seq<LeafVal<V>>, lm: LeafMap<V>, i: nat, nl: Leaf<V>, half: nat)
    requires Placed(chain, vals, lm) && i < |chain| && half < |vals[i].entries| && nl !in lm
    requires forall a, b :: 0 <= a < b < |chain| ==> chain[a] != chain[b]
    ensures Placed(Spliced(chain, i + 1, nl), SplitVals(vals, i, half), CutLeaf(lm, chain[i], nl, vals[i].entries[half].key))
  {
    var t, w, lm' := Spliced(chain, i + 1, nl), SplitVals(vals, i, half), CutLeaf(lm, chain[i], nl, vals[i].entries[half].key);
    SplitAt(vals, i, half);
    forall j | 0 <= j < |t|
      ensures t[j] in lm' && lm'[t[j]].lo == w[j].lo && lm'[t[j]].hi == w[j].hi
    {
      PlacedSplitAt(chain, vals, lm, i, nl, half, j);
    }
    forall l | l in lm'
      ensures l in t
    {
      StillInChain(chain, i, nl, l);
    }
  }

  lemma PlacedSplitAt<V>(chain: seq<Leaf<V>>, vals: seq<LeafVal<V>>, lm: LeafMap<V>, i: nat, nl: Leaf<V>, half: nat, j: nat)
    requires Placed(chain, vals, lm) && i < |chain| && half < |vals[i].entries| && nl !in lm && j <= |chain|
    requires forall a, b :: 0 <= a < b < |chain| ==> chain[a] != chain[b]
    ensures var t, w, lm' := Spliced(chain, i + 1, nl), SplitVals(vals, i, half), CutLeaf(lm, chain[i], nl, vals[i].entries[half].key);
            |w| == |t| && t[j] in lm' && lm'[t[j]].lo == w[j].lo && lm'[t[j]].hi == w[j].hi
  {
    SplitAt(vals, i, half);
    if j < i {
      assert chain[j] != chain[i];
    } else if j > i + 1 {
      assert chain[i] != chain[j - 1];
    }
  }

  lemma StillInChain<V>(chain: seq<Leaf<V>>, i: nat, nl: Leaf<V>, l: Leaf<V>)
    requires i < |chain| && (l == nl || l in chain)
    ensures l in Spliced(chain, i + 1, nl)
  {
    var t := Spliced(chain, i + 1, nl);
    if l == nl {
      assert t[i + 1] == nl;
    } else {
      var j :| 0 <= j < |chain| && chain[j] == l;
      assert t[if j <= i then j else j + 1] == l;
    }
  }

  /** The state after leaf `i` was split in the middle. */
  ghost function SplitState<V>(s: State<V>, i: nat, nl: Leaf<V>): State<V>
    requires i < |s.chain| == |s.vals| && s.chain[i] in s.lm && |s.vals[i].entries| >= 2
  {
    var half := |s.vals[i].entries| / 2;
    s.(lm := CutLeaf(s.lm, s.chain[i], nl, s.vals[i].entries[half].key),
       vals := SplitVals(s.vals, i, half), chain := Spliced(s.chain, i + 1, nl), lists := s.lists + {nl.list})
  }

  /** `leaf::split`, on leaf `i`. */
  method SplitLeaf<V>(l: Leaf<V>, ghost i: nat, ghost s: State<V>) returns (nl: Leaf<V>)
    requires ChainHolds(s) && i < |s.chain| && s.chain[i] == l && |s.vals[i].entries| >= 2
    modifies l`next, l.list, l.list.cells
    ensures fresh(nl) && fresh(nl.list) && ChainHolds(SplitState(s, i, nl))
    ensures nl.list.root != null && nl.list.root.key == s.vals[i].entries[|s.vals[i].entries| / 2].key
    ensures s.lm[l].lo < nl.list.root.key < s.lm[l].hi
  {
    hide AllStore, AllApart, LeafLinks;
    ChainDistinct(s);
    ghost var half := |s.vals[i].entries| / 2;
    ChainSplit(s.vals, s.contents, i, half);
    HalvesOK(s.vals[i], half, s.contents);
    nl := SplitOff(l, i, s.chain, s.vals, s.lists, s.cells);
    PlacedSplit(s.chain, s.vals, s.lm, i, nl, half);
  }

  lemma ChainIndex<V>(s: State<V>, l: Leaf<V>) returns (i: nat)
    requires ChainHolds(s) && l in s.lm
    ensures i < |s.chain| == |s.vals| && s.chain[i] == l
  {
    i :| 0 <= i < |s.chain| && s.chain[i] == l;
  }

  /** New objects only: nothing else joins the footprint. */
  ghost predicate Grows<V>(s: State<V>, s': State<V>) {
    && s.order == s'.order && s.g.Keys <= s'.g.Keys && s.om.Keys <= s'.om.Keys
    && s.lists <= s'.lists && s.cells <= s'.cells && (forall l :: l in s.chain ==> l in s'.chain)
  }

  lemma PutCapacity<V>(s: State<V>, i: nat, k: int, v: V, cells: set<Cell<V>>)
    requires i < |s.vals| && WithinCapacity(s.vals, s.order - 1)
    ensures var w := PutState(s, i, k, v, cells).vals;
            |w[i].entries| <= s.order && (|w[i].entries| < s.order ==> WithinCapacity(w, s.order - 1))
  {
    PutBounds(s.vals[i].entries, k, v, 0, 0);
  }

  lemma SplitCapacity<V>(vals: seq<LeafVal<V>>, i: nat, order: nat, vals0: seq<LeafVal<V>>)
    requires i < |vals| == |vals0| && |vals[i].entries| == order >= 3 && WithinCapacity(vals0, order - 1)
    requires forall j :: 0 <= j < |vals| && j != i ==> vals[j] == vals0[j]
    ensures WithinCapacity(SplitVals(vals, i, order / 2), order - 1)
  {
    SplitAt(vals, i, order / 2);
  }

  /** What a leaf insertion did to the state. */
  ghost predicate LeafInserted<V>(s: State<V>, l: Leaf<V>, k: int, v: V, nl: Leaf?<V>, pk: int, s': State<V>)
    requires l in s.lm
  {
    && s'.contents == s.contents[k := v] && s'.g == s.g && s'.om == s.om && Grows(s, s')
    && (nl == null ==> s'.lm == s.lm && s'.chain == s.chain && s'.lists == s.lists)
    && (nl != null ==>
          && s.lm[l].lo < pk < s.lm[l].hi && s'.lm == CutLeaf(s.lm, l, nl, pk)
          && s'.lists == s.lists + {nl.list} && (forall y :: y in s'.chain ==> y in s.chain || y == nl))
  }

  /** The second half of `leaf::insert`: the split of a full leaf. */
  method SplitIfFull<V>(l: Leaf<V>, ghost i: nat, ghost k: int, ghost v: V, order: nat, ghost s: State<V>, ghost s1: State<V>)
    returns (nl: Leaf?<V>, ghost s': State<V>)
    requires i < |s.vals| == |s.chain| && s.chain[i] == l && l in s.lm && WithinCapacity(s.vals, order - 1) && s.order == order >= 3
    requires s1 == PutState(s, i, k, v, s1.cells) && s.cells <= s1.cells && ChainHolds(s1) && l.list.size == |s1.vals[i].entries|
    modifies l`next, l.list, l.list.cells
    ensures LeavesOK(s') && s'.cells == s1.cells
    ensures nl != null ==> fresh(nl) && fresh(nl.list) && nl.list.root != null
    ensures LeafInserted(s, l, k, v, nl, if nl != null then nl.list.root.key else 0, s')
  {
    hide ChainHolds, PutState, SplitState, WithinCapacity;
    AfterPut(s, i, k, v, s1);
    if l.list.size > order - 1 {
      nl := SplitLeaf(l, i, s1);
      s' := SplitState(s1, i, nl);
      AfterSplit(s, i, k, v, s1, nl);
    } else {
      nl, s' := null, s1;
    }
  }

  /** `leaf::insert` on the leaf a key is routed to. */
  method PutInLeaf<V>(l: Leaf<V>, k: int, v: V, order: nat, ghost s: State<V>) returns (nl: Leaf?<V>, ghost s': State<V>)
    requires LeavesOK(s) && s.order == order >= 3 && l in s.lm && s.lm[l].lo <= k < s.lm[l].hi
    modifies l`next, l.list, l.list.cells
    ensures LeavesOK(s') && fresh(s'.cells - s.cells)
    ensures nl != null ==> fresh(nl) && fresh(nl.list) && nl.list.root != null
    ensures LeafInserted(s, l, k, v, nl, if nl != null then nl.list.root.key else 0, s')
  {
    hide ChainHolds, PutState, LeafInserted;
    ghost var i := ChainIndex(s, l);
    ghost var s1 := PutEntry(l, i, k, v, s);
    nl, s' := SplitIfFull(l, i, k, v, order, s, s1);
  }

  lemma AfterPut<V>(s: State<V>, i: nat, k: int, v: V, s': State<V>)
    requires i < |s.vals| == |s.chain| && s.chain[i] in s.lm && WithinCapacity(s.vals, s.order - 1) && s.order >= 3
    requires s' == PutState(s, i, k, v, s'.cells) && s.cells <= s'.cells
    ensures Grows(s, s') && s'.contents == s.contents[k := v] && s'.g == s.g && s'.om == s.om && s'.lm == s.lm
    ensures s'.chain == s.chain && s'.lists == s.lists && |s'.vals| == |s.vals|
    ensures |s'.vals[i].entries| <= s.order - 1 ==> WithinCapacity(s'.vals, s.order - 1)
    ensures |s'.vals[i].entries| > s.order - 1 ==> |s'.vals[i].entries| == s.order
  {
    PutCapacity(s, i, k, v, s'.cells);
  }

  lemma AfterSplit<V>(s: State<V>, i: nat, k: int, v: V, s1: State<V>, nl: Leaf<V>)
    requires i < |s.vals| == |s.chain| && s.chain[i] in s.lm && WithinCapacity(s.vals, s.order - 1) && s.order >= 3
    requires s1 == PutState(s, i, k, v, s1.cells) && s.cells <= s1.cells && |s1.vals[i].entries| == s.order
    ensures var s' := SplitState(s1, i, nl);
            && Grows(s, s') && s'.contents == s.contents[k := v] && s'.g == s.g && s'.om == s.om
            && s'.lm == CutLeaf(s.lm, s.chain[i], nl, s1.vals[i].entries[s.order / 2].key)
            && s'.lists == s.lists + {nl.list} && s'.cells == s1.cells && WithinCapacity(s'.vals, s.order - 1)
            && (forall y :: y in s'.chain ==> y in s.chain || y == nl)
  {
    SplitCapacity(s1.vals, i, s.order, s.vals);
    forall y | y in s.chain
      ensures y in Spliced(s.chain, i + 1, nl)
    {
      StillInChain(s.chain, i, nl, y);
    }
  }

  lemma InFootprint<V>(s: State<V>, i: nat)
    requires ChainHolds(s) && i < |s.chain|
    ensures s.chain[i].list in s.lists && forall c :: c in s.chain[i].list.cells ==> c in s.cells
    ensures |s.vals| == |s.chain| && s.chain[i] in s.lm
  {
    assert Stores(s.chain[i], s.vals[i].entries, s.lists, s.cells);
  }

  // ----- the internal part of set -----

  /** The live lists of two nodes are disjoint, because each list node has one owner. */
  lemma LiveDisjoint<V>(g: InnerMap<V>, om: OwnerMap<V>, n: Internal<V>, q: Internal<V>)
    requires n in g && q in g && n != q && Owns(n, g[n].live, om) && Owns(q, g[q].live, om)
    ensures forall i :: 0 <= i < |g[q].live| ==> g[q].live[i] !in g[n].live
  {
  }

  /** A new list node for child `c` in node `n`; every other node is left alone. */
  method AddKid<V>(n: Internal<V>, key: int, c: Child<V>, ghost j: int, ghost g: InnerMap<V>, ghost om: OwnerMap<V>,
                   ghost x: Internal?<V>, ghost xh: int) returns (y: ListNode<V>)
    requires NodesHold(g, om, x, xh) && n in g && n != x && KeysOK(g[n].live, g[n].lo, g[n].hi) && |g[n].kids| == |g[n].live|
    requires Position(g[n].live, j, key, g[n].hi) && key > FLOOR
    modifies n`root, n`size, g[n].live`next
    ensures fresh(y) && y.key == key && y !in om
    ensures NodesHold(g[n := InsertInfo(g[n], j, y, c)], om[y := n], x, xh)
  {
    hide Holds;
    OthersDisjoint(g, om, n);
    y := InsertKid(n, key, c, g[n], j, g[n].hi);
    assert forall q :: q in g && q != n ==> HoldsAt(q, g, x, xh);
    InsertHolds(g, om, n, j, y, c, x, xh);
  }

  ghost predicate HoldsAt<V>(q: Internal<V>, g: InnerMap<V>, x: Internal?<V>, xh: int)
    requires q in g
    reads q, g[q].live
  {
    Holds(q, g[q].lesser, g[q].live, g[q].kids, if q == x then xh else g[q].hi)
  }

  lemma OthersDisjoint<V>(g: InnerMap<V>, om: OwnerMap<V>, n: Internal<V>)
    requires n in g && forall q :: q in g ==> Owns(q, g[q].live, om)
    ensures forall q :: q in g && q != n ==> forall i :: 0 <= i < |g[q].live| ==> g[q].live[i] !in g[n].live
  {
    forall q | q in g && q != n
      ensures forall i :: 0 <= i < |g[q].live| ==> g[q].live[i] !in g[n].live
    {
      LiveDisjoint(g, om, n, q);
    }
  }

  lemma InsertHolds<V>(g: InnerMap<V>, om: OwnerMap<V>, n: Internal<V>, j: int, y: ListNode<V>, c: Child<V>, x: Internal?<V>, xh: int)
    requires n in g && n != x && -1 <= j < |g[n].live| == |g[n].kids| && y !in om && y.key > FLOOR
    requires (forall y :: y in om ==> y.key > FLOOR) && (forall q :: q in g ==> Owns(q, g[q].live, om) && FLOOR <= g[q].lo)
    requires forall q :: q in g && q != n ==> HoldsAt(q, g, x, xh)
    requires Holds(n, g[n].lesser, Spliced(g[n].live, j + 1, y), Spliced(g[n].kids, j + 1, c), g[n].hi)
    ensures NodesHold(g[n := InsertInfo(g[n], j, y, c)], om[y := n], x, xh)
  {
    hide Holds;
    var g', om' := g[n := InsertInfo(g[n], j, y, c)], om[y := n];
    forall q | q in g'
      ensures Holds(q, g'[q].lesser, g'[q].live, g'[q].kids, if q == x then xh else g'[q].hi)
      ensures Owns(q, g'[q].live, om')
    {
      OwnsAfterInsert(g, om, n, j, y, c, q);
      if q != n {
        assert HoldsAt(q, g, x, xh);
      }
    }
  }

  lemma OwnsAfterInsert<V>(g: InnerMap<V>, om: OwnerMap<V>, n: Internal<V>, j: int, y: ListNode<V>, c: Child<V>, q: Internal<V>)
    requires n in g && -1 <= j < |g[n].live| == |g[n].kids| && y !in om && q in g && Owns(q, g[q].live, om)
    ensures Owns(q, g[n := InsertInfo(g[n], j, y, c)][q].live, om[y := n])
  {
  }

  /** Splits node `n`; every other node is left alone. */
  method SplitInner<V>(n: Internal<V>, ghost g: InnerMap<V>, ghost om: OwnerMap<V>)
    returns (up: Internal<V>, right: Internal<V>, y: ListNode<V>)
    requires NodesHold(g, om, null, 0) && n in g && KeysOK(g[n].live, g[n].lo, g[n].hi) && |g[n].kids| == |g[n].live| >= 3
    modifies n`size, g[n].live`next, g[n].live`child
    ensures fresh(up) && fresh(right) && up != right && up !in g && right !in g && y == g[n].live[|g[n].live| / 2]
    ensures NodesHold(SplitMap(g, n, |g[n].live| / 2, right, up), SplitOwners(om, g[n].live, |g[n].live| / 2, right, up), n, y.key)
    ensures up.size == 1 && up.lesser == N(n) && up.root == y && y.next == null && y.child == N(right)
  {
    hide Holds;
    OthersDisjoint(g, om, n);
    up, right, y := SplitNode(n, g[n], g[n].hi);
    assert forall q :: q in g && q != n ==> HoldsAt(q, g, null, 0);
    SplitHolds(g, om, n, |g[n].live| / 2, right, up);
  }

  lemma SplitHolds<V>(g: InnerMap<V>, om: OwnerMap<V>, n: Internal<V>, mid: nat, right: Internal<V>, up: Internal<V>)
    requires n in g && 1 <= mid < |g[n].live| == |g[n].kids| && right !in g && KeysOK(g[n].live, g[n].lo, g[n].hi)
    requires (forall y :: y in om ==> y.key > FLOOR) && (forall q :: q in g ==> Owns(q, g[q].live, om) && FLOOR <= g[q].lo)
    requires forall q :: q in g && q != n ==> HoldsAt(q, g, null, 0)
    requires Holds(n, g[n].lesser, g[n].live[..mid], g[n].kids[..mid], g[n].live[mid].key)
    requires Holds(right, g[n].kids[mid], g[n].live[mid + 1..], g[n].kids[mid + 1..], g[n].hi)
    ensures NodesHold(SplitMap(g, n, mid, right, up), SplitOwners(om, g[n].live, mid, right, up), n, g[n].live[mid].key)
  {
    hide Holds;
    var g', om' := SplitMap(g, n, mid, right, up), SplitOwners(om, g[n].live, mid, right, up);
    SplitOwned(n, mid, right, up, g[n].live, om);
    forall q | q in g'
      ensures Holds(q, g'[q].lesser, g'[q].live, g'[q].kids, if q == n then g[n].live[mid].key else g'[q].hi)
      ensures Owns(q, g'[q].live, om')
    {
      if q != n && q != right {
        assert HoldsAt(q, g, null, 0);
        LiveDisjoint(g, om, n, q);
      }
    }
  }

  /** The node over a split pair, as `split` returns it. */
  ghost predicate UpOK<V>(up: Internal<V>, c: Internal<V>, right: Internal<V>, x: ListNode<V>)
    reads up, x
  {
    up.size == 1 && up.lesser == N(c) && up.root == x && x.next == null && x.child == N(right)
  }

  /** `insert_leaf`: the new leaf becomes a child of `n`. */
  method InsertLeaf<V>(n: Internal<V>, l: Leaf<V>, nl: Leaf<V>, ghost j: int, ghost lm: LeafMap<V>, ghost s: State<V>) returns (ghost s': State<V>)
    requires AllInner(s.g, lm, s.om, null, 0) && NodesHold(s.g, s.om, null, 0) && SizesOK(s.g, s.order - 1, null)
    requires n in s.g && -1 <= j < |s.g[n].live| == |s.g[n].kids| && KidAt(s.g[n], j) == L(l) && s.order >= 3
    requires l in lm && nl !in lm && lm[l] == LeafInfo(KidLow(s.g[n], j), KidHigh(s.g[n], j, s.g[n].hi), n)
    requires nl.list.root != null && lm[l].lo < nl.list.root.key < lm[l].hi && s.lm == CutLeaf(lm, l, nl, nl.list.root.key)
    modifies n`root, n`size, s.g[n].live`next
    ensures InnersOver(s', n) && Grows(s, s') && s' == s.(g := s'.g, om := s'.om)
    ensures s'.g.Keys == s.g.Keys && fresh(s'.om.Keys - s.om.Keys)
    ensures forall q :: q in s.g ==> if q == n then SameFace(s.g[n], s'.g[n]) else s'.g[q] == s.g[q]
  {
    hide AllInner, Holds;
    NodeKeys(s.g, lm, s.om, n);
    var y := AddKid(n, nl.list.root.key, L(nl), j, s.g, s.om, null, 0);
    CutLeafOK(n, j, l, nl, y, s.g, lm, s.om);
    s' := s.(g := s.g[n := InsertInfo(s.g[n], j, y, L(nl))], om := s.om[y := n]);
  }

  /** The same interval, rank and place. */
  ghost predicate SameFace<V>(I: Info<V>, J: Info<V>) { I.lo == J.lo && I.hi == J.hi && I.parent == J.parent && I.rank == J.rank }

  lemma NodeKeys<V>(g: InnerMap<V>, lm: LeafMap<V>, om: OwnerMap<V>, n: Internal<V>)
    requires AllInner(g, lm, om, null, 0) && n in g && FLOOR <= g[n].lo
    ensures KeysOK(g[n].live, g[n].lo, g[n].hi) && |g[n].kids| == |g[n].live|
    ensures forall j :: -1 <= j < |g[n].live| ==> FLOOR <= KidLow(g[n], j)
  {
    assert Inner(n, g[n].hi, g, lm, om);
  }

  /** The child at position `j` of `p` is the split node `c`. */
  ghost predicate SplitChild<V>(p: Internal<V>, j: int, c: Internal<V>, g: InnerMap<V>) {
    && p in g && c in g && p != c && -1 <= j < |g[p].live| == |g[p].kids| && |g[p].live| >= 1 && KidAt(g[p], j) == N(c)
    && g[c].parent == p && g[c].rank + 2 <= g[p].rank
    && KidLow(g[p], j) == g[c].lo && KidHigh(g[p], j, g[p].hi) == g[c].hi
  }

  /** Once its interval is cut, a pending node holds like any other. */
  lemma WrapHolds<V>(g: InnerMap<V>, om: OwnerMap<V>, p: Internal<V>, c: Internal<V>, up: Internal<V>, right: Internal<V>, x: ListNode<V>, y: ListNode<V>)
    requires p in g && c in g && p != c && up !in g && |g[p].live| == |g[p].kids| >= 1 && FLOOR <= g[c].lo < x.key
    requires NodesHold(g[p := InsertInfo(g[p], -1, y, N(up))], om[y := p], c, x.key)
    requires x in om && om[x] == up && y != x && UpOK(up, c, right, x)
    ensures NodesHold(WrapMap(g, p, c, up, right, x, y), om[y := p], null, 0)
  {
    var g1, g2 := g[p := InsertInfo(g[p], -1, y, N(up))], WrapMap(g, p, c, up, right, x, y);
    assert Holds(up, N(c), [x], [N(right)], g[c].hi);
    hide Holds;
    forall q | q in g2
      ensures HoldsAt(q, g2, null, 0) && Owns(q, g2[q].live, om[y := p]) && FLOOR <= g2[q].lo
    {
      if q != up {
        assert HoldsAt(q, g1, c, x.key) && Owns(q, g1[q].live, om[y := p]) && FLOOR <= g1[q].lo;
      }
    }
  }

  lemma AdoptHolds<V>(g: InnerMap<V>, om: OwnerMap<V>, p: Internal<V>, j: int, c: Internal<V>, right: Internal<V>, y: ListNode<V>)
    requires p in g && c in g && right in g && p != c && p != right && c != right && -1 <= j < |g[p].live| == |g[p].kids|
    requires NodesHold(g[p := InsertInfo(g[p], j, y, N(right))], om[y := p], c, y.key)
    ensures NodesHold(AdoptMap(g, p, j, c, right, y), om[y := p], null, 0)
  {
    var g1, g2 := g[p := InsertInfo(g[p], j, y, N(right))], AdoptMap(g, p, j, c, right, y);
    hide Holds;
    forall q | q in g2
      ensures HoldsAt(q, g2, null, 0) && Owns(q, g2[q].live, om[y := p]) && FLOOR <= g2[q].lo
    {
      assert HoldsAt(q, g1, c, y.key) && Owns(q, g1[q].live, om[y := p]) && FLOOR <= g1[q].lo;
    }
  }

  /** What an insertion into `p` may change in the map: `p` itself, and nodes below it. */
  ghost predicate OnlyBelow<V>(g: InnerMap<V>, p: Internal<V>, g': InnerMap<V>)
    requires p in g
  {
    && g.Keys <= g'.Keys && SameFace(g[p], g'[p])
    && (forall q :: q in g ==> g'[q].rank == g[q].rank)
    && (forall q :: q in g && q != p && g[q].rank >= g[p].rank ==> g'[q] == g[q])
  }

  lemma WrapChanges<V>(p: Internal<V>, c: Internal<V>, up: Internal<V>, right: Internal<V>, x: ListNode<V>, y: ListNode<V>, g: InnerMap<V>, order: nat)
    requires SplitChild(p, -1, c, g) && up !in g && SizesOK(g, order - 1, null) && order >= 3 && |g[p].live| >= 1
    ensures var g' := WrapMap(g, p, c, up, right, x, y);
            OnlyBelow(g, p, g') && g'.Keys == g.Keys + {up} && SizesOK(g', order - 1, p) && |g'[p].live| <= order
  {
  }

  lemma AdoptChanges<V>(p: Internal<V>, j: int, c: Internal<V>, right: Internal<V>, y: ListNode<V>, g: InnerMap<V>, order: nat)
    requires SplitChild(p, j, c, g) && right in g && right != p && right != c && g[right].rank == g[c].rank
    requires SizesOK(g, order - 1, null) && order >= 3 && |g[p].live| >= 1
    ensures var g' := AdoptMap(g, p, j, c, right, y);
            OnlyBelow(g, p, g') && g'.Keys == g.Keys && SizesOK(g', order - 1, p) && |g'[p].live| <= order
  {
  }

  /** The first branch is taken exactly when the split child is the lesser one. */
  lemma WhichBranch<V>(p: Internal<V>, j: int, c: Internal<V>, up: Internal<V>, right: Internal<V>, x: ListNode<V>, s: State<V>)
    requires InnersOK(s, c, x.key) && SplitPending(c, up, right, x, s.g, s.om) && SplitChild(p, j, c, s.g)
    ensures KeysOK(s.g[p].live, s.g[p].lo, s.g[p].hi) && p.root == s.g[p].live[0] && p != right
    ensures x.key < p.root.key <==> j == -1
    ensures Position(s.g[p].live, j, x.key, s.g[p].hi)
  {
    assert Inner(p, s.g[p].hi, s.g, s.lm, s.om);
    assert Holds(p, s.g[p].lesser, s.g[p].live, s.g[p].kids, s.g[p].hi);
  }

  /** The first branch of `insert_internal`: the whole new root becomes a child of `p`. */
  method WrapUp<V>(p: Internal<V>, up: Internal<V>, ghost c: Internal<V>, ghost right: Internal<V>, ghost x: ListNode<V>, ghost s: State<V>)
    returns (ghost s': State<V>)
    requires InnersOK(s, c, x.key) && SplitPending(c, up, right, x, s.g, s.om) && UpOK(up, c, right, x) && SplitChild(p, -1, c, s.g)
    requires s.order >= 3 && x.key > FLOOR
    modifies p`root, p`size, s.g[p].live`next
    ensures InnersOver(s', p) && s' == s.(g := s'.g, om := s'.om) && s.om.Keys <= s'.om.Keys
    ensures s'.g.Keys == s.g.Keys + {up} && fresh(s'.om.Keys - s.om.Keys) && OnlyBelow(s.g, p, s'.g)
  {
    WhichBranch(p, -1, c, up, right, x, s);
    hide AllInner, NodesHold, Holds, SizesOK, InsertInfo, WrapMap, OnlyBelow;
    var y := AddKid(p, up.root.key, N(up), -1, s.g, s.om, c, x.key);
    s' := s.(g := WrapMap(s.g, p, c, up, right, x, y), om := s.om[y := p]);
    WrapDone(p, up, c, right, x, y, s);
  }

  lemma WrapDone<V>(p: Internal<V>, up: Internal<V>, c: Internal<V>, right: Internal<V>, x: ListNode<V>, y: ListNode<V>, s: State<V>)
    requires AllInner(s.g, s.lm, s.om, c, x.key) && SizesOK(s.g, s.order - 1, null)
    requires SplitPending(c, up, right, x, s.g, s.om) && UpOK(up, c, right, x) && SplitChild(p, -1, c, s.g)
    requires s.order >= 3 && x.key > FLOOR && y !in s.om && y.key == x.key
    requires NodesHold(s.g[p := InsertInfo(s.g[p], -1, y, N(up))], s.om[y := p], c, x.key)
    ensures var s' := s.(g := WrapMap(s.g, p, c, up, right, x, y), om := s.om[y := p]);
            InnersOver(s', p) && s'.g.Keys == s.g.Keys + {up} && OnlyBelow(s.g, p, s'.g)
  {
    hide AllInner, NodesHold, Holds, SizesOK, InsertInfo, WrapMap, OnlyBelow;
    WrapOK(p, c, up, right, x, y, s.g, s.lm, s.om);
    WrapHolds(s.g, s.om, p, c, up, right, x, y);
    WrapChanges(p, c, up, right, x, y, s.g, s.order);
  }

  /** The second branch of `insert_internal`: only the right node becomes a child of `p`. */
  method AdoptRight<V>(p: Internal<V>, up: Internal<V>, ghost j: int, ghost c: Internal<V>, ghost right: Internal<V>, ghost x: ListNode<V>,
                       ghost s: State<V>) returns (ghost s': State<V>)
    requires InnersOK(s, c, x.key) && SplitPending(c, up, right, x, s.g, s.om) && UpOK(up, c, right, x) && SplitChild(p, j, c, s.g)
    requires s.order >= 3 && x.key > FLOOR && j >= 0
    modifies p`root, p`size, s.g[p].live`next
    ensures InnersOver(s', p) && s' == s.(g := s'.g, om := s'.om) && s.om.Keys <= s'.om.Keys
    ensures s'.g.Keys == s.g.Keys && fresh(s'.om.Keys - s.om.Keys) && OnlyBelow(s.g, p, s'.g)
  {
    WhichBranch(p, j, c, up, right, x, s);
    hide AllInner, NodesHold, Holds, SizesOK, InsertInfo, AdoptMap, OnlyBelow;
    var y := AddKid(p, up.root.key, up.root.child, j, s.g, s.om, c, x.key);
    AdoptOK(p, j, c, up, right, x, y, s.g, s.lm, s.om);
    AdoptHolds(s.g, s.om, p, j, c, right, y);
    AdoptChanges(p, j, c, right, y, s.g, s.order);
    s' := s.(g := AdoptMap(s.g, p, j, c, right, y), om := s.om[y := p]);
  }

  /** `insert_internal`. */
  method InsertInternal<V>(p: Internal<V>, up: Internal<V>, ghost j: int, ghost c: Internal<V>, ghost right: Internal<V>, ghost x: ListNode<V>,
                           ghost s: State<V>) returns (ghost s': State<V>)
    requires InnersOK(s, c, x.key) && SplitPending(c, up, right, x, s.g, s.om) && UpOK(up, c, right, x) && SplitChild(p, j, c, s.g)
    requires s.order >= 3 && x.key > FLOOR
    modifies p`root, p`size, s.g[p].live`next
    ensures InnersOver(s', p) && s' == s.(g := s'.g, om := s'.om) && s.om.Keys <= s'.om.Keys
    ensures s'.g.Keys <= s.g.Keys + {up} && fresh(s'.om.Keys - s.om.Keys) && OnlyBelow(s.g, p, s'.g)
  {
    WhichBranch(p, j, c, up, right, x, s);
    hide InnersOK, InnersOver, SplitPending, SplitChild, OnlyBelow;
    if up.root.key < p.root.key {
      s' := WrapUp(p, up, c, right, x, s);
    } else {
      s' := AdoptRight(p, up, j, c, right, x, s);
    }
  }

  /** `split` of a full node, with the maps brought up to date: the node is pending. */
  method SplitFull<V>(n: Internal<V>, order: nat, ghost s: State<V>) returns (up: Internal<V>, ghost right: Internal<V>, ghost x: ListNode<V>, ghost s': State<V>)
    requires InnersOver(s, n) && s.order == order >= 3 && |s.g[n].live| == order
    modifies n`size, s.g[n].live`next, s.g[n].live`child
    ensures InnersOK(s', n, x.key) && SplitPending(n, up, right, x, s'.g, s'.om) && UpOK(up, n, right, x) && x.key > FLOOR
    ensures s' == s.(g := s'.g, om := s'.om, lm := s'.lm) && s'.om.Keys == s.om.Keys && fresh(s'.g.Keys - s.g.Keys) && fresh(up)
    ensures OnlyBelow(s.g, n, s'.g) && Relabelled(s.lm, s'.lm)
  {
    NodeKeys(s.g, s.lm, s.om, n);
    FloorOf(s, n);
    hide AllInner, NodesHold, Holds, SizesOK, OnlyBelow, Relabelled, SplitMap, SplitOwners, ReparentLeaves, KeysOK;
    var r, y;
    up, r, y := SplitInner(n, s.g, s.om);
    right, x := r, y;
    SplitAll(n, order / 2, right, up, s.g, s.lm, s.om);
    SplitChanges(n, order, right, up, s.g);
    SplitKeepsKeys(n, order / 2, right, up, s.g[n].live, s.lm, s.om);
    s' := s.(g := SplitMap(s.g, n, order / 2, right, up), om := SplitOwners(s.om, s.g[n].live, order / 2, right, up),
             lm := ReparentLeaves(s.lm, n, x.key, right));
  }

  /** The same leaves over the same intervals. */
  ghost predicate Relabelled<V>(lm: LeafMap<V>, lm': LeafMap<V>) {
    lm.Keys == lm'.Keys && forall l :: l in lm ==> lm'[l].lo == lm[l].lo && lm'[l].hi == lm[l].hi
  }

  lemma FloorOf<V>(s: State<V>, n: Internal<V>)
    requires NodesHold(s.g, s.om, null, 0) && n in s.g
    ensures FLOOR <= s.g[n].lo && forall i :: 0 <= i < |s.g[n].live| ==> s.g[n].live[i] in s.om && s.g[n].live[i].key > FLOOR
  {
    assert Owns(n, s.g[n].live, s.om);
  }

  lemma SplitChanges<V>(n: Internal<V>, order: nat, right: Internal<V>, up: Internal<V>, g: InnerMap<V>)
    requires n in g && right !in g && |g[n].live| == |g[n].kids| == order >= 3 && SizesOK(g, order - 1, n)
    ensures var g' := SplitMap(g, n, order / 2, right, up);
            OnlyBelow(g, n, g') && g'.Keys == g.Keys + {right} && SizesOK(g', order - 1, null)
  {
    var mk := g[n].live[order / 2].key;
    var h := Reparent(g, n, mk, right);
    assert h.Keys == g.Keys;
    assert forall q :: q in g ==> h[q].live == g[q].live && h[q].rank == g[q].rank;
    assert forall q :: q in g && g[q].rank >= g[n].rank ==> h[q] == g[q];
  }

  lemma SplitKeepsKeys<V>(n: Internal<V>, mid: nat, right: Internal<V>, up: Internal<V>, live: seq<ListNode<V>>, lm: LeafMap<V>, om: OwnerMap<V>)
    requires mid < |live|
    ensures Relabelled(lm, ReparentLeaves(lm, n, live[mid].key, right))
    ensures SplitOwners(om, live, mid, right, up).Keys == om.Keys
  {
  }
}
