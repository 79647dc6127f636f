/** The B+ tree index: `tree`, with `bpt_internal::set`, `get_val_ptr` and `iterate`. */
module BPlusTree {
  import opened Wrappers
  import opened LeafLists
  import opened BptShape
  import opened BptChain
  import opened BptHeap
  import opened BptLeaves
  import opened BptSteps

  /** A split that the parent has still to take in. */
  datatype Promoted<V> = Nothing | Pair(right: Internal<V>, x: ListNode<V>)

  /** What `set` on node `n` leaves behind: a tree in order, or one with `n` freshly split and
      a new node `up` over the pair. */
  ghost predicate Handed<V>(s: State<V>, n: Internal<V>, up: Internal?<V>, p: Promoted<V>)
    reads s.g.Keys, s.om.Keys, if up != null then {up} else {}, if p.Pair? then {p.x} else {}
  {
    match p
    case Nothing => up == null && InnersOK(s, null, 0)
    case Pair(right, x) =>
      up != null && InnersOK(s, n, x.key) && SplitPending(n, up, right, x, s.g, s.om) && UpOK(up, n, right, x) && x.key > FLOOR
  }

  /** The effect of a `set` below and at node `n`. */
  ghost predicate Stepped<V>(s: State<V>, n: Internal<V>, k: int, v: V, s': State<V>)
    requires n in s.g
  {
    s'.contents == s.contents[k := v] && OnlyBelow(s.g, n, s'.g) && Grows(s, s')
  }

  /** A node that is not over capacity needs no split. */
  lemma NotFull<V>(s: State<V>, n: Internal<V>)
    requires InnersOver(s, n)
    ensures n in s.g && |s.g[n].live| == n.size <= s.order && (n.size <= s.order - 1 ==> InnersOK(s, null, 0))
  {
    assert Holds(n, s.g[n].lesser, s.g[n].live, s.g[n].kids, s.g[n].hi);
  }

  lemma MayBeOver<V>(s: State<V>, n: Internal<V>)
    requires InnersOK(s, null, 0) && n in s.g
    ensures InnersOver(s, n)
  {
  }

  /** The chain does not depend on which node routes to a leaf. */
  lemma LeavesRelabelled<V>(s: State<V>, s': State<V>)
    requires LeavesOK(s) && s' == s.(g := s'.g, om := s'.om, lm := s'.lm) && Relabelled(s.lm, s'.lm)
    ensures LeavesOK(s')
  {
    hide AllStore, AllApart, LeafLinks, ChainOK;
  }

  lemma BelowTwice<V>(g: InnerMap<V>, p: Internal<V>, g1: InnerMap<V>, g2: InnerMap<V>)
    requires p in g && OnlyBelow(g, p, g1) && OnlyBelow(g1, p, g2)
    ensures OnlyBelow(g, p, g2)
  {
  }

  lemma LiveOwned<V>(s: State<V>, n: Internal<V>)
    requires InnersOver(s, n)
    ensures forall y :: y in s.g[n].live ==> y in s.om
  {
    assert Owns(n, s.g[n].live, s.om);
  }

  /** List nodes and internal nodes are no part of a leaf. */
  lemma DistinctKinds<V>(live: seq<ListNode<V>>, n: Internal<V>, lists: set<LeafList<V>>, cells: set<Cell<V>>)
    ensures forall o: object :: o in lists ==> o != n && o !in live
    ensures forall o: object :: o in cells ==> o != n && o !in live
  {
    forall o: object | o in lists
      ensures o != n && o !in live
    {
      assert o is LeafList<V>;
    }
    forall o: object | o in cells
      ensures o != n && o !in live
    {
      assert o is Cell<V>;
    }
  }

  /** The end of `set`: a node over capacity is split. */
  method SplitIfOver<V>(n: Internal<V>, order: nat, ghost s: State<V>) returns (up: Internal?<V>, ghost p: Promoted<V>, ghost s': State<V>)
    requires InnersOver(s, n) && LeavesOK(s) && s.order == order >= 3
    modifies n`size, s.g[n].live`next, s.g[n].live`child
    ensures Handed(s', n, up, p) && LeavesOK(s') && s' == s.(g := s'.g, om := s'.om, lm := s'.lm)
    ensures OnlyBelow(s.g, n, s'.g) && s'.om.Keys == s.om.Keys && fresh(s'.g.Keys - s.g.Keys) && (up != null ==> fresh(up))
    ensures Grows(s, s')
  {
    hide InnersOver, InnersOK, LeavesOK, SplitPending, Relabelled;
    NotFull(s, n);
    DistinctKinds(s.g[n].live, n, s.lists, s.cells);
    if n.size > order - 1 {
      ghost var right, x;
      up, right, x, s' := SplitFull(n, order, s);
      p := Pair(right, x);
      LeavesRelabelled(s, s');
    } else {
      up, p, s' := null, Nothing, s;
    }
  }

  lemma LeafFootprint<V>(s: State<V>, l: Leaf<V>)
    requires LeavesOK(s) && l in s.lm
    ensures l in s.chain && l.list in s.lists && forall c :: c in l.list.cells ==> c in s.cells
  {
    var i := ChainIndex(s, l);
    InFootprint(s, i);
  }

  /** Lists and cells are no part of an internal node. */
  lemma DistinctFromNodes<V>(g: InnerMap<V>, om: OwnerMap<V>, l: Leaf<V>, list: LeafList<V>, cells: seq<Cell<V>>)
    ensures forall o: object :: o in g.Keys || o in om.Keys ==> o != l && o != list && o !in cells
  {
    forall o: object | o in g.Keys
      ensures o != l && o != list && o !in cells
    {
      assert o is Internal<V>;
    }
    forall o: object | o in om.Keys
      ensures o != l && o != list && o !in cells
    {
      assert o is ListNode<V>;
    }
  }

  lemma AtNodeOnly<V>(s: State<V>, s': State<V>, n: Internal<V>)
    requires n in s.g && s'.g.Keys == s.g.Keys
    requires forall q :: q in s.g ==> if q == n then SameFace(s.g[n], s'.g[n]) else s'.g[q] == s.g[q]
    ensures OnlyBelow(s.g, n, s'.g)
  {
  }

  /** What the chain's insertion of a leaf means for the node above it. */
  lemma LeafStep<V>(s: State<V>, n: Internal<V>, l: Leaf<V>, k: int, v: V, nl: Leaf?<V>, pk: int, s1: State<V>)
    requires n in s.g && l in s.lm && LeafInserted(s, l, k, v, nl, pk, s1)
    ensures Stepped(s, n, k, v, s1) && s1.order == s.order && s1.g == s.g && s1.om == s.om
    ensures nl == null ==> s1.lm == s.lm && s1.lists == s.lists && s1.chain == s.chain
    ensures nl != null ==> s.lm[l].lo < pk < s.lm[l].hi && s1.lm == CutLeaf(s.lm, l, nl, pk) && s1.lists == s.lists + {nl.list}
    ensures forall y :: y in s1.chain ==> y in s.chain || y == nl
  {
  }

  lemma SteppedOn<V>(s: State<V>, n: Internal<V>, k: int, v: V, s1: State<V>, s': State<V>)
    requires n in s.g && n in s1.g && Stepped(s, n, k, v, s1) && OnlyBelow(s1.g, n, s'.g) && Grows(s1, s') && s'.contents == s1.contents
    ensures Stepped(s, n, k, v, s') && n in s'.g && s'.order == s.order
  {
    BelowTwice(s.g, n, s1.g, s'.g);
  }

  /** `insert_leaf`, seen from the chain as well. */
  method PlaceLeaf<V>(n: Internal<V>, l: Leaf<V>, nl: Leaf<V>, ghost j: int, ghost lm: LeafMap<V>, ghost s: State<V>) returns (ghost s': State<V>)
    requires AllInner(s.g, lm, s.om, null, 0) && NodesHold(s.g, s.om, null, 0) && SizesOK(s.g, s.order - 1, null) && LeavesOK(s)
    requires n in s.g && -1 <= j < |s.g[n].live| == |s.g[n].kids| && KidAt(s.g[n], j) == L(l) && s.order >= 3
    requires l in lm && nl !in lm && lm[l] == LeafInfo(KidLow(s.g[n], j), KidHigh(s.g[n], j, s.g[n].hi), n)
    requires nl.list.root != null && lm[l].lo < nl.list.root.key < lm[l].hi && s.lm == CutLeaf(lm, l, nl, nl.list.root.key)
    modifies n`root, n`size, s.g[n].live`next
    ensures InnersOver(s', n) && LeavesOK(s') && OnlyBelow(s.g, n, s'.g) && Grows(s, s')
    ensures s' == s.(g := s'.g, om := s'.om) && s'.g.Keys == s.g.Keys && fresh(s'.om.Keys - s.om.Keys)
  {
    hide LeavesOK, NodesHold, AllInner, SizesOK, InnersOver, OnlyBelow, CutLeaf, KidLow, KidHigh, KidAt;
    DistinctKinds(s.g[n].live, n, s.lists, s.cells);
    s' := InsertLeaf(n, l, nl, j, lm, s);
    AtNodeOnly(s, s', n);
    SameLeaves(s, s');
  }

  lemma SameLeaves<V>(s: State<V>, s': State<V>)
    requires LeavesOK(s) && s' == s.(g := s'.g, om := s'.om)
    ensures LeavesOK(s')
  {
    LeavesRelabelled(s, s');
  }

  /** The leaf branch of `set`. */
  method SetInLeaf<V>(n: Internal<V>, l: Leaf<V>, ghost j: int, k: int, v: V, order: nat, ghost s: State<V>) returns (ghost s': State<V>)
    requires InnersOK(s, null, 0) && LeavesOK(s) && s.order == order >= 3
    requires n in s.g && -1 <= j < |s.g[n].live| == |s.g[n].kids| && KidAt(s.g[n], j) == L(l)
    requires l in s.lm && s.lm[l] == LeafInfo(KidLow(s.g[n], j), KidHigh(s.g[n], j, s.g[n].hi), n) && s.lm[l].lo <= k < s.lm[l].hi
    modifies n`root, n`size, s.g[n].live`next, l`next, l.list, l.list.cells
    ensures InnersOver(s', n) && LeavesOK(s') && Stepped(s, n, k, v, s') && s'.g.Keys == s.g.Keys && s'.order == order
    ensures fresh(s'.om.Keys - s.om.Keys) && fresh(s'.lists - s.lists) && fresh(s'.cells - s.cells)
    ensures forall y :: y in s'.chain ==> y in s.chain || fresh(y)
  {
    hide LeavesOK, NodesHold, AllInner, SizesOK, InnersOver, OnlyBelow, CutLeaf, KidLow, KidHigh, KidAt, Stepped, LeafInserted, Grows;
    DistinctFromNodes(s.g, s.om, l, l.list, l.list.cells);
    var nl;
    ghost var s1;
    nl, s1 := PutInLeaf(l, k, v, order, s);
    LeafStep(s, n, l, k, v, nl, if nl != null then nl.list.root.key else 0, s1);
    if nl != null {
      s' := PlaceLeaf(n, l, nl, j, s.lm, s1);
      SteppedOn(s, n, k, v, s1, s');
    } else {
      s' := s1;
      MayBeOver(s1, n);
    }
  }

  /** What a `set` on child `c` means for its parent `p`. */
  lemma ParentUnmoved<V>(s: State<V>, p: Internal<V>, j: int, c: Internal<V>, k: int, v: V, s1: State<V>)
    requires SplitChild(p, j, c, s.g) && Stepped(s, c, k, v, s1)
    ensures SplitChild(p, j, c, s1.g) && s1.g[p] == s.g[p] && s1.order == s.order && Stepped(s, p, k, v, s1)
  {
  }

  /** What becomes of the parent `p` once child `c` has been served: `insert_internal`, if there is
      anything to insert. */
  method TakeIn<V>(p: Internal<V>, up: Internal?<V>, ghost j: int, ghost c: Internal<V>, ghost pr: Promoted<V>, ghost s: State<V>)
    returns (ghost s': State<V>)
    requires Handed(s, c, up, pr) && LeavesOK(s) && SplitChild(p, j, c, s.g) && s.order >= 3
    modifies p`root, p`size, s.g[p].live`next
    ensures InnersOver(s', p) && LeavesOK(s') && OnlyBelow(s.g, p, s'.g) && Grows(s, s') && s' == s.(g := s'.g, om := s'.om)
    ensures fresh(s'.om.Keys - s.om.Keys) && s'.g.Keys <= s.g.Keys + (if up == null then {} else {up})
  {
    hide LeavesOK, InnersOK, InnersOver, OnlyBelow, SplitPending, UpOK;
    DistinctKinds(s.g[p].live, p, s.lists, s.cells);
    if up != null {
      s' := InsertInternal(p, up, j, c, pr.right, pr.x, s);
      SameLeaves(s, s');
      BelowGrows(s.g, p, s'.g);
    } else {
      s' := s;
      MayBeOver(s, p);
      Unmoved(s.g, p);
    }
  }

  lemma BelowGrows<V>(g: InnerMap<V>, p: Internal<V>, g': InnerMap<V>)
    requires p in g && OnlyBelow(g, p, g')
    ensures g.Keys <= g'.Keys
  {
  }

  lemma Unmoved<V>(g: InnerMap<V>, p: Internal<V>)
    requires p in g
    ensures OnlyBelow(g, p, g)
  {
  }

  lemma KidOfNode<V>(s: State<V>, n: Internal<V>, j: int, c: Internal<V>, k: int)
    requires InnersOK(s, null, 0) && Roomy(s.g) && n in s.g && -1 <= j < |s.g[n].live| == |s.g[n].kids|
    requires KidAt(s.g[n], j) == N(c) && KidLow(s.g[n], j) <= k < KidHigh(s.g[n], j, s.g[n].hi)
    ensures SplitChild(n, j, c, s.g) && s.g[c].lo <= k < s.g[c].hi && s.g[c].rank < s.g[n].rank
  {
    NodeFacts(s, n);
    assert KidAt(s.g[n], j) == N(c);
  }

  lemma KidIsLeaf<V>(s: State<V>, n: Internal<V>, j: int, l: Leaf<V>, k: int)
    requires InnersOK(s, null, 0) && n in s.g && -1 <= j < |s.g[n].live| == |s.g[n].kids|
    requires KidAt(s.g[n], j) == L(l) && KidLow(s.g[n], j) <= k < KidHigh(s.g[n], j, s.g[n].hi)
    ensures l in s.lm && s.lm[l] == LeafInfo(KidLow(s.g[n], j), KidHigh(s.g[n], j, s.g[n].hi), n)
  {
    NodeFacts(s, n);
    assert KidAt(s.g[n], j) == L(l);
  }

  /** The state of a tree with room between the ranks. */
  ghost predicate Ready<V>(s: State<V>, order: nat)
    reads s.g.Keys, s.om.Keys, s.chain`next, s.lists, s.cells
  {
    InnersOK(s, null, 0) && LeavesOK(s) && Roomy(s.g) && s.order == order >= 3
  }

  lemma Routable<V>(s: State<V>, n: Internal<V>)
    requires InnersOK(s, null, 0) && n in s.g
    ensures Holds(n, s.g[n].lesser, s.g[n].live, s.g[n].kids, s.g[n].hi) && KeysOK(s.g[n].live, s.g[n].lo, s.g[n].hi)
  {
    NodeFacts(s, n);
  }

  lemma LiveOwnedOK<V>(s: State<V>, n: Internal<V>)
    requires InnersOK(s, null, 0) && n in s.g
    ensures forall y :: y in s.g[n].live ==> y in s.om
  {
    MayBeOver(s, n);
    LiveOwned(s, n);
  }

  /** The branch of `set` for a leaf. */
  method SetLeaf<V>(n: Internal<V>, l: Leaf<V>, ghost j: int, k: int, v: V, order: nat, ghost s: State<V>) returns (ghost s': State<V>)
    requires Ready(s, order) && n in s.g && -1 <= j < |s.g[n].live| == |s.g[n].kids| && KidAt(s.g[n], j) == L(l)
    requires KidLow(s.g[n], j) <= k < KidHigh(s.g[n], j, s.g[n].hi)
    modifies s.g.Keys, s.om.Keys, s.chain`next, s.lists, s.cells
    ensures InnersOver(s', n) && LeavesOK(s') && Stepped(s, n, k, v, s') && n in s'.g && s'.order == order
    ensures fresh(s'.g.Keys - s.g.Keys) && fresh(s'.om.Keys - s.om.Keys) && fresh(s'.lists - s.lists) && fresh(s'.cells - s.cells)
    ensures forall y :: y in s'.chain ==> y in s.chain || fresh(y)
  {
    hide InnersOK, LeavesOK, Roomy, Stepped, InnersOver, KidAt, KidLow, KidHigh;
    KidIsLeaf(s, n, j, l, k);
    LiveOwnedOK(s, n);
    LeafFootprint(s, l);
    s' := SetInLeaf(n, l, j, k, v, order, s);
  }

  /** The branch of `set` for an internal child. */
  method SetChild<V>(n: Internal<V>, m: Internal<V>, ghost j: int, k: int, v: V, order: nat, ghost s: State<V>) returns (ghost s': State<V>)
    requires Ready(s, order) && n in s.g && -1 <= j < |s.g[n].live| == |s.g[n].kids| && KidAt(s.g[n], j) == N(m)
    requires KidLow(s.g[n], j) <= k < KidHigh(s.g[n], j, s.g[n].hi)
    modifies s.g.Keys, s.om.Keys, s.chain`next, s.lists, s.cells
    ensures InnersOver(s', n) && LeavesOK(s') && Stepped(s, n, k, v, s') && n in s'.g && s'.order == order
    ensures fresh(s'.g.Keys - s.g.Keys) && fresh(s'.om.Keys - s.om.Keys) && fresh(s'.lists - s.lists) && fresh(s'.cells - s.cells)
    ensures forall y :: y in s'.chain ==> y in s.chain || fresh(y)
    decreases s.g[n].rank, 0
  {
    hide InnersOK, LeavesOK, Roomy, Stepped, OnlyBelow, InnersOver, SplitChild, Grows, Handed, KidAt, KidLow, KidHigh;
    KidOfNode(s, n, j, m, k);
    LiveOwnedOK(s, n);
    var up;
    ghost var pr, s1;
    up, pr, s1 := SetIn(m, k, v, order, s);
    ParentUnmoved(s, n, j, m, k, v, s1);
    s' := TakeIn(n, up, j, m, pr, s1);
    SteppedOn(s, n, k, v, s1, s');
  }

  /** The children's part of `set`. */
  method SetBelow<V>(n: Internal<V>, k: int, v: V, order: nat, ghost s: State<V>) returns (ghost s': State<V>)
    requires Ready(s, order) && n in s.g && s.g[n].lo <= k < s.g[n].hi
    modifies s.g.Keys, s.om.Keys, s.chain`next, s.lists, s.cells
    ensures InnersOver(s', n) && LeavesOK(s') && Stepped(s, n, k, v, s') && n in s'.g && s'.order == order
    ensures fresh(s'.g.Keys - s.g.Keys) && fresh(s'.om.Keys - s.om.Keys) && fresh(s'.lists - s.lists) && fresh(s'.cells - s.cells)
    ensures forall y :: y in s'.chain ==> y in s.chain || fresh(y)
    decreases s.g[n].rank, 1
  {
    hide InnersOK, LeavesOK, Roomy, Stepped, OnlyBelow, InnersOver, Holds, KeysOK, KidAt, KidLow, KidHigh;
    Routable(s, n);
    var c;
    ghost var j;
    c, j := RouteStep(n, k, s.g[n], s.g[n].hi);
    match c {
      case L(l) =>
        s' := SetLeaf(n, l, j, k, v, order, s);
      case N(m) =>
        s' := SetChild(n, m, j, k, v, order, s);
    }
  }

  /** `bpt_internal::set`. */
  method SetIn<V>(n: Internal<V>, k: int, v: V, order: nat, ghost s: State<V>) returns (up: Internal?<V>, ghost p: Promoted<V>, ghost s': State<V>)
    requires Ready(s, order) && n in s.g && s.g[n].lo <= k < s.g[n].hi
    modifies s.g.Keys, s.om.Keys, s.chain`next, s.lists, s.cells
    ensures Handed(s', n, up, p) && LeavesOK(s') && Stepped(s, n, k, v, s') && (up != null ==> fresh(up))
    ensures fresh(s'.g.Keys - s.g.Keys) && fresh(s'.om.Keys - s.om.Keys) && fresh(s'.lists - s.lists) && fresh(s'.cells - s.cells)
    ensures forall y :: y in s'.chain ==> y in s.chain || fresh(y)
    decreases s.g[n].rank, 2
  {
    hide InnersOK, LeavesOK, Roomy, Stepped, OnlyBelow, InnersOver, SplitChild, Grows, Handed;
    ghost var s1 := SetBelow(n, k, v, order, s);
    LiveOwned(s1, n);
    up, p, s' := SplitIfOver(n, order, s1);
    SteppedOn(s, n, k, v, s1, s');
  }

  // ----- the tree -----

  /** The root answers for every key. */
  ghost predicate Rooted<V>(s: State<V>, r: Internal<V>) {
    r in s.g && s.g[r].lo == FLOOR && s.g[r].hi == CEILING && s.g[r].parent == null
  }

  ghost predicate InRange<V>(m: map<int, V>) { forall k :: k in m ==> 0 <= k < CEILING }

  function EmptyState<V>(order: nat): State<V> { State(order, map[], map[], map[], map[], [], [], {}, {}) }

  /** Doubling the ranks makes room for new nodes and changes nothing else. */
  lemma MakeRoom<V>(s: State<V>, r: Internal<V>)
    requires InnersOK(s, null, 0) && LeavesOK(s) && s.order >= 3 && Rooted(s, r)
    ensures var d := s.(g := Doubled(s.g)); Ready(d, s.order) && Rooted(d, r) && d.g.Keys == s.g.Keys
  {
    hide Holds, AllInner, Roomy, LeavesOK;
    DoubledOK(s.g, s.lm, s.om);
    var d := s.(g := Doubled(s.g));
    forall q | q in d.g
      ensures HoldsAt(q, d.g, null, 0) && Owns(q, d.g[q].live, d.om)
    {
      assert HoldsAt(q, s.g, null, 0) && Owns(q, s.g[q].live, s.om);
    }
    SameLeaves(s, d);
  }

  lemma RootHolds<V>(g: InnerMap<V>, om: OwnerMap<V>, c: Internal<V>, up: Internal<V>, right: Internal<V>, x: ListNode<V>)
    requires NodesHold(g, om, c, x.key) && SplitPending(c, up, right, x, g, om) && UpOK(up, c, right, x)
    ensures NodesHold(RootMap(g, c, up, right, x), om, null, 0)
  {
    var g' := RootMap(g, c, up, right, x);
    assert Holds(up, N(c), [x], [N(right)], g[c].hi);
    hide Holds;
    forall q | q in g'
      ensures HoldsAt(q, g', null, 0) && Owns(q, g'[q].live, om) && FLOOR <= g'[q].lo
    {
      if q != up {
        assert HoldsAt(q, g, c, x.key) && Owns(q, g[q].live, om);
      }
    }
  }

  lemma RootSizes<V>(g: InnerMap<V>, cap: nat, c: Internal<V>, up: Internal<V>, right: Internal<V>, x: ListNode<V>)
    requires SizesOK(g, cap, null) && c in g && up !in g && cap >= 1
    ensures SizesOK(RootMap(g, c, up, right, x), cap, null) && RootMap(g, c, up, right, x).Keys == g.Keys + {up}
  {
  }

  /** `tree::set` after a split of the root: the new node takes its place. */
  lemma NewRoot<V>(s: State<V>, c: Internal<V>, up: Internal<V>, p: Promoted<V>)
    requires Handed(s, c, up, p) && LeavesOK(s) && Rooted(s, c) && s.order >= 3
    ensures p.Pair? && c in s.g
    ensures var s' := s.(g := RootMap(s.g, c, up, p.right, p.x));
            InnersOK(s', null, 0) && LeavesOK(s') && Rooted(s', up) && s'.g.Keys == s.g.Keys + {up}
  {
    hide AllInner, NodesHold, SizesOK, LeavesOK;
    RootOK(c, up, p.right, p.x, s.g, s.lm, s.om);
    RootHolds(s.g, s.om, c, up, p.right, p.x);
    RootSizes(s.g, s.order - 1, c, up, p.right, p.x);
    SameLeaves(s, s.(g := RootMap(s.g, c, up, p.right, p.x)));
  }

  lemma StillRooted<V>(s: State<V>, r: Internal<V>, k: int, v: V, s': State<V>)
    requires Rooted(s, r) && Stepped(s, r, k, v, s')
    ensures Rooted(s', r) && s'.contents == s.contents[k := v] && s'.order == s.order
  {
  }

  /** The node the first `set` creates: an empty lesser leaf, linked before the leaf with the pair. */
  ghost function FirstState<V>(n: Internal<V>, y: ListNode<V>, e: Leaf<V>, l: Leaf<V>, k: int, v: V, order: nat, cells: set<Cell<V>>): State<V> {
    State(order, map[k := v], map[n := Info(FLOOR, CEILING, null, 0, L(e), [y], [L(l)])],
          map[e := LeafInfo(FLOOR, k, n), l := LeafInfo(k, CEILING, n)], map[y := n],
          [e, l], [LeafVal(FLOOR, k, []), LeafVal(k, CEILING, [Entry(k, v)])], {e.list, l.list}, cells)
  }

  lemma FirstInners<V>(n: Internal<V>, y: ListNode<V>, e: Leaf<V>, l: Leaf<V>, k: int, v: V, order: nat, cells: set<Cell<V>>)
    requires 0 <= k < CEILING && order >= 3 && e != l && y.key == k && y.child == L(l) && y.next == null
    requires n.size == 1 && n.root == y && n.lesser == L(e)
    ensures InnersOK(FirstState(n, y, e, l, k, v, order, cells), null, 0)
  {
    var s := FirstState(n, y, e, l, k, v, order, cells);
    assert Holds(n, L(e), [y], [L(l)], CEILING);
    assert Inner(n, CEILING, s.g, s.lm, s.om);
  }

  lemma FirstLeaves<V>(n: Internal<V>, y: ListNode<V>, e: Leaf<V>, l: Leaf<V>, k: int, v: V, order: nat, cells: set<Cell<V>>)
    requires 0 <= k < CEILING && order >= 3 && e != l && e.next == l && l.next == null && e.list != l.list
    requires e.list.Valid() && e.list.entries == [] && e.list.cells == []
    requires l.list.Valid() && l.list.entries == [Entry(k, v)] && cells == (set c | c in l.list.cells)
    ensures LeavesOK(FirstState(n, y, e, l, k, v, order, cells))
  {
    var s := FirstState(n, y, e, l, k, v, order, cells);
    FirstChain(k, v);
    assert s.chain[0] == e && s.chain[1] == l;
    assert Stores(e, [], s.lists, s.cells) && Stores(l, [Entry(k, v)], s.lists, s.cells) && Apart(e, l);
    hide Stores, Apart, ChainOK;
  }

  lemma FirstChain<V>(k: int, v: V)
    requires 0 <= k < CEILING
    ensures ChainOK([LeafVal(FLOOR, k, []), LeafVal(k, CEILING, [Entry(k, v)])], map[k := v])
  {
    forall q
      ensures Find([Entry(k, v)], q) == Look(map[k := v], q)
    {
    }
  }

  /** The two leaves of a new tree. */
  method FirstPair<V>(k: int, v: V) returns (e: Leaf<V>, l: Leaf<V>)
    ensures fresh(e) && fresh(l) && fresh(e.list) && fresh(l.list) && forall c :: c in l.list.cells ==> fresh(c)
    ensures e != l && e.next == l && l.next == null && e.list != l.list
    ensures e.list.Valid() && e.list.entries == [] && e.list.cells == []
    ensures l.list.Valid() && l.list.entries == [Entry(k, v)]
  {
    var list := new LeafList<V>();
    list.Set(k, v);
    hide LeafList.Valid;
    l := new Leaf(list);
    var none := new LeafList<V>();
    e := new Leaf(none);
    e.next := l;
  }

  lemma FirstFacts<V>(n: Internal<V>, y: ListNode<V>, e: Leaf<V>, l: Leaf<V>, k: int, v: V, order: nat, cells: set<Cell<V>>)
    ensures var s := FirstState(n, y, e, l, k, v, order, cells);
            && Rooted(s, n) && s.order == order && s.contents == map[k := v] && s.g.Keys == {n} && s.om.Keys == {y}
            && s.lists == {e.list, l.list} && s.cells == cells && s.chain == [e, l]
  {
  }

  /** `bpt_internal(new leaf(key, val))`. */
  method FirstNode<V>(k: int, v: V, order: nat) returns (n: Internal<V>, ghost s: State<V>)
    requires 0 <= k < CEILING && order >= 3
    ensures InnersOK(s, null, 0) && LeavesOK(s) && Rooted(s, n) && s.order == order && s.contents == map[k := v]
    ensures fresh(s.g.Keys) && fresh(s.om.Keys) && fresh(s.lists) && fresh(s.cells)
    ensures forall y :: y in s.chain ==> fresh(y)
  {
    hide LeafList.Valid, FirstState, InnersOK, LeavesOK, Rooted;
    var e, l := FirstPair(k, v);
    var y := new ListNode(k, L(l));
    n := new Internal(L(e), y, 1);
    ghost var cells := set c | c in l.list.cells;
    FirstInners(n, y, e, l, k, v, order, cells);
    FirstLeaves(n, y, e, l, k, v, order, cells);
    FirstFacts(n, y, e, l, k, v, order, cells);
    s := FirstState(n, y, e, l, k, v, order, cells);
  }

  /** `tree::set` on a tree that has a root. */
  method SetAtRoot<V>(r: Internal<V>, k: int, v: V, order: nat, ghost s: State<V>) returns (r': Internal<V>, ghost s': State<V>)
    requires InnersOK(s, null, 0) && LeavesOK(s) && Rooted(s, r) && 0 <= k < CEILING && s.order == order >= 3
    modifies s.g.Keys, s.om.Keys, s.chain`next, s.lists, s.cells
    ensures InnersOK(s', null, 0) && LeavesOK(s') && Rooted(s', r') && s'.order == order && s'.contents == s.contents[k := v]
    ensures fresh(s'.g.Keys - s.g.Keys) && fresh(s'.om.Keys - s.om.Keys) && fresh(s'.lists - s.lists) && fresh(s'.cells - s.cells)
    ensures forall y :: y in s'.chain ==> y in s.chain || fresh(y)
  {
    hide InnersOK, LeavesOK, Stepped, SplitPending, UpOK, Ready, RootMap, Doubled;
    MakeRoom(s, r);
    ghost var d := s.(g := Doubled(s.g));
    var up;
    ghost var p;
    up, p, s' := SetIn(r, k, v, order, d);
    StillRooted(d, r, k, v, s');
    if up != null {
      NewRoot(s', r, up, p);
      r', s' := up, s'.(g := RootMap(s'.g, r, up, p.right, p.x));
    } else {
      r' := r;
    }
  }

  /** A tree object is no part of its own nodes. */
  lemma TreeApart<V>(t: Tree<V>, s: State<V>)
    ensures forall o: object :: o in s.g.Keys || o in s.om.Keys || o in s.lists || o in s.cells ==> o != t
  {
    assert forall o: object :: o in s.g.Keys ==> o is Internal<V>;
    assert forall o: object :: o in s.om.Keys ==> o is ListNode<V>;
    assert forall o: object :: o in s.lists ==> o is LeafList<V>;
    assert forall o: object :: o in s.cells ==> o is Cell<V>;
  }

  class Tree<V> {
    const order: nat
    var root: Internal?<V>
    ghost var st: State<V>

    ghost predicate Valid()
      reads this, st.g.Keys, st.om.Keys, st.chain`next, st.lists, st.cells
    {
      && st.order == order >= 3 && InRange(st.contents)
      && (if root == null then st == EmptyState(order) else Rooted(st, root) && InnersOK(st, null, 0) && LeavesOK(st))
    }

    constructor (o: nat)
      requires o >= 3
      ensures Valid() && order == o && st == EmptyState(o)
    {
      order, root, st := o, null, EmptyState(o);
    }

    /** `tree::get`. */
    method Get(k: int) returns (r: Option<V>)
      requires Valid() && 0 <= k < CEILING
      ensures r == Look(st.contents, k)
    {
      if root == null {
        return None;
      }
      ghost var leaf;
      r, leaf := Lookup(root, k, st);
    }

    /** `tree::iterate`. */
    method Iterate() returns (out: seq<Entry<V>>)
      requires Valid()
      ensures Sorted(out)
      ensures forall i :: 0 <= i < |out| ==> out[i].key in st.contents && st.contents[out[i].key] == out[i].val
      ensures forall k :: k in st.contents ==> Entry(k, st.contents[k]) in out
    {
      if root == null {
        return [];
      }
      FlattenIsMap(st.vals, st.contents);
      var l := FirstLeaf(root, st);
      out := WalkChain(l, st);
    }

    /** `tree::set`. */
    method Set(k: int, v: V)
      requires Valid() && 0 <= k < CEILING
      modifies this`root, this`st, st.g.Keys, st.om.Keys, st.chain`next, st.lists, st.cells
      ensures Valid() && st.contents == old(st.contents)[k := v]
      ensures fresh(st.g.Keys - old(st.g.Keys)) && fresh(st.om.Keys - old(st.om.Keys))
      ensures fresh(st.lists - old(st.lists)) && fresh(st.cells - old(st.cells))
      ensures forall y :: y in st.chain ==> y in old(st.chain) || fresh(y)
    {
      hide InnersOK, LeavesOK, Rooted, InRange;
      var r;
      ghost var s;
      if root == null {
        r, s := FirstNode(k, v, order);
      } else {
        r, s := SetAtRoot(root, k, v, order, st);
      }
      TreeApart(this, s);
      StaysInRange(st.contents, k, v);
      root, st := r, s;
    }
  }

  /** In every state: each node's and each leaf's size field is right and within capacity,
      and the leaves nodes route to are exactly the leaves on the chain. */
  lemma Capacities<V>(t: Tree<V>)
    requires t.Valid() && t.root != null
    ensures forall q :: q in t.st.g ==> q.size == |t.st.g[q].live| <= t.order - 1
    ensures forall i :: 0 <= i < |t.st.chain| ==> t.st.chain[i].list.size <= t.order - 1
    ensures forall l :: l in t.st.lm <==> l in t.st.chain
  {
    var s := t.st;
    forall q | q in s.g
      ensures q.size == |s.g[q].live| <= t.order - 1
    {
      assert HoldsAt(q, s.g, null, 0);
    }
    hide InnersOK;
    forall i | 0 <= i < |s.chain|
      ensures s.chain[i].list.size <= t.order - 1
    {
      ChainStep(s, i);
    }
    forall l | l in s.chain
      ensures l in s.lm
    {
      var i :| 0 <= i < |s.chain| && s.chain[i] == l;
    }
  }

  /** Routing a key from the root ends at the one leaf of the chain whose interval holds it. */
  lemma LeafReached<V>(t: Tree<V>, k: int, i: nat)
    requires t.Valid() && t.root != null && i < |t.st.chain|
    ensures |t.st.vals| == |t.st.chain|
    ensures t.st.vals[i].lo <= k < t.st.vals[i].hi <==> FLOOR <= k < CEILING && Reached(t.st, t.root, k) == t.st.chain[i]
  {
    var s := t.st;
    hide InnersOK, Reached;
    Intervals(s, i);
    if FLOOR <= k < CEILING {
      var j := ChainIndex(s, Reached(s, t.root, k));
      Intervals(s, j);
      if i != j && s.vals[i].lo <= k < s.vals[i].hi {
        OtherLeaf(s.vals, i, j, k);
      }
    }
  }

  /** Every leaf of the chain has such keys: all but the first only keys of the index type. */
  lemma Intervals<V>(s: State<V>, i: nat)
    requires LeavesOK(s) && i < |s.chain|
    ensures |s.vals| == |s.chain| && s.chain[i] in s.lm && s.lm[s.chain[i]].lo == s.vals[i].lo && s.lm[s.chain[i]].hi == s.vals[i].hi
    ensures FLOOR <= s.vals[i].lo < s.vals[i].hi <= CEILING && (i > 0 ==> 0 <= s.vals[i].lo) && Tiled(s.vals)
  {
    assert LeafOK(s.vals[i]) && LeafOK(s.vals[0]) && LeafOK(s.vals[|s.vals| - 1]);
  }

  lemma StaysInRange<V>(m: map<int, V>, k: int, v: V)
    requires InRange(m) && 0 <= k < CEILING
    ensures InRange(m[k := v])
  {
  }

  // ----- whole runs -----

  /** The map a run of `set` calls should leave. */
  function After<V>(sets: seq<Entry<V>>): map<int, V> {
    if sets == [] then map[]
    else var e := sets[|sets| - 1]; After(sets[..|sets| - 1])[e.key := e.val]
  }

  /** `r` is the value most recently set for `k`, or nothing if there was none. */
  ghost predicate IsLatest<V>(sets: seq<Entry<V>>, k: int, r: Option<V>) {
    match r
    case None => forall i :: 0 <= i < |sets| ==> sets[i].key != k
    case Some(v) => exists i :: 0 <= i < |sets| && sets[i] == Entry(k, v) && forall j :: i < j < |sets| ==> sets[j].key != k
  }

  lemma {:induction false} AfterIsLatest<V>(sets: seq<Entry<V>>, k: int)
    ensures IsLatest(sets, k, Look(After(sets), k))
  {
    if sets != [] {
      var n := |sets| - 1;
      AfterIsLatest(sets[..n], k);
      LatestOfMore(sets[..n], sets[n], k, Look(After(sets[..n]), k));
      assert sets == sets[..n] + [sets[n]];
    }
  }

  lemma LatestOfMore<V>(sets: seq<Entry<V>>, e: Entry<V>, k: int, r: Option<V>)
    requires IsLatest(sets, k, r)
    ensures IsLatest(sets + [e], k, if e.key == k then Some(e.val) else r)
  {
    var more := sets + [e];
    if e.key == k {
      assert more[|sets|] == Entry(k, e.val);
    } else if r.Some? {
      var i :| 0 <= i < |sets| && sets[i] == Entry(k, r.value) && forall j :: i < j < |sets| ==> sets[j].key != k;
      assert more[i] == Entry(k, r.value);
    }
  }

  lemma LatestIsUnique<V>(sets: seq<Entry<V>>, k: int, r: Option<V>, r': Option<V>)
    requires IsLatest(sets, k, r) && IsLatest(sets, k, r')
    ensures r == r'
  {
  }

  /** A new tree after a run of `set` calls. */
  method Build<V>(sets: seq<Entry<V>>, order: nat) returns (t: Tree<V>)
    requires order >= 3 && forall i :: 0 <= i < |sets| ==> 0 <= sets[i].key < CEILING
    ensures fresh(t) && t.Valid() && t.st.contents == After(sets)
  {
    hide Tree.Valid;
    t := new Tree<V>(order);
    assert sets[..0] == [];
    for n := 0 to |sets|
      invariant fresh(t) && t.Valid() && t.st.contents == After(sets[..n])
      invariant fresh(t.st.g.Keys) && fresh(t.st.om.Keys) && fresh(t.st.lists) && fresh(t.st.cells)
      invariant fresh(t.st.chain)
    {
      ghost var before := t.st.chain;
      t.Set(sets[n].key, sets[n].val);
      forall i | 0 <= i < |t.st.chain|
        ensures fresh(t.st.chain[i])
      {
        assert t.st.chain[i] in t.st.chain;
        if t.st.chain[i] in before {
          var j :| 0 <= j < |before| && before[j] == t.st.chain[i];
        }
      }
      assert sets[..n + 1][..n] == sets[..n];
    }
    assert sets[..|sets|] == sets;
  }

  /** After any run of `set` calls, `get` returns the latest value and `iterate` visits
      every key once, in ascending order, with its latest value. */
  method Run<V>(sets: seq<Entry<V>>, order: nat, k: int) returns (r: Option<V>, all: seq<Entry<V>>)
    requires order >= 3 && 0 <= k < CEILING && forall i :: 0 <= i < |sets| ==> 0 <= sets[i].key < CEILING
    ensures IsLatest(sets, k, r)
    ensures Sorted(all)
    ensures forall i :: 0 <= i < |all| ==> IsLatest(sets, all[i].key, Some(all[i].val))
    ensures forall i :: 0 <= i < |sets| ==> exists j :: 0 <= j < |all| && all[j].key == sets[i].key
  {
    hide Tree.Valid;
    var t := Build(sets, order);
    r := t.Get(k);
    AfterIsLatest(sets, k);
    all := t.Iterate();
    forall i | 0 <= i < |all|
      ensures IsLatest(sets, all[i].key, Some(all[i].val))
    {
      AfterIsLatest(sets, all[i].key);
    }
    forall i | 0 <= i < |sets|
      ensures exists j :: 0 <= j < |all| && all[j].key == sets[i].key
    {
      AfterIsLatest(sets, sets[i].key);
      var e := Entry(sets[i].key, t.st.contents[sets[i].key]);
      assert e in all;
      var j :| 0 <= j < |all| && all[j] == e;
      assert all[j].key == sets[i].key;
    }
  }
}
