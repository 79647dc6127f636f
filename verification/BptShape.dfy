/** The B+ tree's nodes, and the pure part of its invariant: which keys are routed to which
    node.  The real structure is a graph with shared, stale list tails, so nothing here
    speaks of a tree shape: a node answers for an interval of keys, only its live list nodes
    count, and a child whose interval is empty may be anything at all. */
module BptShape {
  import opened LeafLists

  /** Keys are `size_t`; intervals start just below the least key. */
  const FLOOR: int := -1
  const CEILING: int := 0x1_0000_0000_0000_0000

  datatype Child<V> = L(leaf: Leaf<V>) | N(node: Internal<V>)

  /** `list_node` of an internal node's list. */
  class ListNode<V> {
    const key: int
    var child: Child<V>
    var next: ListNode?<V>

    constructor (k: int, c: Child<V>)
      ensures key == k && child == c && next == null
    {
      key, child, next := k, c, null;
    }
  }

  /** `bpt_internal`. */
  class Internal<V> {
    var lesser: Child<V>
    var root: ListNode<V>
    var size: nat

    constructor (l: Child<V>, r: ListNode<V>, n: nat)
      ensures lesser == l && root == r && size == n
    {
      lesser, root, size := l, r, n;
    }
  }

  /** `leaf`. */
  class Leaf<V> {
    const list: LeafList<V>
    var next: Leaf?<V>

    constructor (l: LeafList<V>)
      ensures list == l && next == null
    {
      list, next := l, null;
    }
  }

  /** What an internal node answers for and holds: its interval, the node routing to it, a
      measure that falls along routing, and its live children. */
  datatype Info<V> = Info(lo: int, hi: int, parent: Internal?<V>, rank: nat,
                          lesser: Child<V>, live: seq<ListNode<V>>, kids: seq<Child<V>>)

  datatype LeafInfo<V> = LeafInfo(lo: int, hi: int, parent: Internal<V>)

  type InnerMap<V> = map<Internal<V>, Info<V>>
  type LeafMap<V> = map<Leaf<V>, LeafInfo<V>>
  type OwnerMap<V> = map<ListNode<V>, Internal<V>>

  /** Child `c` of `p` answers for exactly `[lo, hi)`, unless nothing is routed to it. */
  ghost predicate KidOK<V>(p: Internal<V>, c: Child<V>, lo: int, hi: int, g: InnerMap<V>, lm: LeafMap<V>)
    requires p in g
  {
    lo < hi ==>
      match c
      case L(l) => l in lm && lm[l] == LeafInfo(lo, hi, p)
      case N(m) => m in g && g[m].lo == lo && g[m].hi == hi && g[m].parent == p && g[m].rank < g[p].rank
  }

  /** The key that ends the interval of live child `i`, in a node ending at `h`. */
  function Upper<V>(live: seq<ListNode<V>>, i: nat, h: int): int
    requires i < |live|
  {
    if i + 1 < |live| then live[i + 1].key else h
  }

  ghost predicate KeysOK<V>(live: seq<ListNode<V>>, lo: int, h: int) {
    && |live| >= 1 && lo < h && lo <= live[0].key
    && (forall i :: 0 <= i < |live| ==> live[i].key < h)
    && (forall i, j :: 0 <= i < j < |live| ==> live[i].key < live[j].key)
  }

  ghost predicate Owns<V>(n: Internal<V>, live: seq<ListNode<V>>, om: OwnerMap<V>) {
    forall i :: 0 <= i < |live| ==> live[i] in om && om[live[i]] == n
  }

  ghost predicate KidsOK<V>(n: Internal<V>, h: int, I: Info<V>, g: InnerMap<V>, lm: LeafMap<V>)
    requires n in g
  {
    && |I.kids| == |I.live| >= 1
    && KidOK(n, I.lesser, I.lo, I.live[0].key, g, lm)
    && (forall i :: 0 <= i < |I.live| ==> KidOK(n, I.kids[i], I.live[i].key, Upper(I.live, i, h), g, lm))
  }

  /** Everything about node `n` that does not read the heap, if its interval ends at `h`. */
  ghost predicate Inner<V>(n: Internal<V>, h: int, g: InnerMap<V>, lm: LeafMap<V>, om: OwnerMap<V>)
    requires n in g
  {
    KeysOK(g[n].live, g[n].lo, h) && Owns(n, g[n].live, om) && KidsOK(n, h, g[n], g, lm)
  }

  /** All nodes are in order; `x`, if in the map, only up to `xh`. */
  ghost predicate AllInner<V>(g: InnerMap<V>, lm: LeafMap<V>, om: OwnerMap<V>, x: Internal?<V>, xh: int) {
    forall q :: q in g ==> Inner(q, if q == x then xh else g[q].hi, g, lm, om)
  }

  /** Every routed child ranks at least `gap` below its parent. */
  ghost predicate Roomy<V>(g: InnerMap<V>) {
    forall q, m :: q in g && m in g && g[m].parent == q && g[m].rank < g[q].rank ==> g[m].rank + 2 <= g[q].rank
  }

  // ----- inserting a child -----

  /** The list position a child with key `key` goes behind: `-1` is the front. */
  ghost predicate Position<V>(live: seq<ListNode<V>>, j: int, key: int, h: int) {
    && -1 <= j < |live| && |live| >= 1
    && (if j == -1 then key < live[0].key else live[j].key < key < Upper(live, j, h))
  }

  function InsertInfo<V>(I: Info<V>, j: int, x: ListNode<V>, c: Child<V>): Info<V>
    requires -1 <= j < |I.live| == |I.kids|
  {
    I.(live := I.live[..j + 1] + [x] + I.live[j + 1..], kids := I.kids[..j + 1] + [c] + I.kids[j + 1..])
  }

  /** The child whose interval is cut by an insertion behind `j`. */
  function KidAt<V>(I: Info<V>, j: int): Child<V>
    requires -1 <= j < |I.kids|
  {
    if j == -1 then I.lesser else I.kids[j]
  }

  function KidLow<V>(I: Info<V>, j: int): int
    requires -1 <= j < |I.live|
  {
    if j == -1 then I.lo else I.live[j].key
  }

  function KidHigh<V>(I: Info<V>, j: int, h: int): int
    requires -1 <= j < |I.live| && |I.live| >= 1
  {
    if j == -1 then I.live[0].key else Upper(I.live, j, h)
  }

  lemma InsertKeys<V>(live: seq<ListNode<V>>, j: int, x: ListNode<V>, lo: int, h: int)
    requires KeysOK(live, lo, h) && Position(live, j, x.key, h) && lo <= x.key
    ensures KeysOK(live[..j + 1] + [x] + live[j + 1..], lo, h)
  {
    var t := live[..j + 1] + [x] + live[j + 1..];
    assert forall i :: 0 <= i <= j ==> t[i] == live[i] && t[i].key < x.key;
    assert forall i :: j + 1 < i < |t| ==> t[i] == live[i - 1] && x.key < t[i].key;
  }

  /** After an insertion the node is in order again, given that the cut child now ends at the
      new key and the new child answers for the rest. */
  lemma InsertInner<V>(n: Internal<V>, h: int, j: int, x: ListNode<V>, c: Child<V>,
                       g: InnerMap<V>, lm: LeafMap<V>, om: OwnerMap<V>,
                       g': InnerMap<V>, lm': LeafMap<V>, om': OwnerMap<V>)
    requires n in g && Inner(n, h, g, lm, om) && Position(g[n].live, j, x.key, h) && g[n].lo <= x.key
    requires n in g' && g'[n] == InsertInfo(g[n], j, x, c)
    requires x in om' && om'[x] == n && Owns(n, g[n].live, om')
    requires KidOK(n, KidAt(g[n], j), KidLow(g[n], j), x.key, g', lm')
    requires KidOK(n, c, x.key, KidHigh(g[n], j, h), g', lm')
    requires forall i :: -1 <= i < |g[n].live| && i != j ==> KidOK(n, KidAt(g[n], i), KidLow(g[n], i), KidHigh(g[n], i, h), g', lm')
    ensures Inner(n, h, g', lm', om')
  {
    var I, I' := g[n], g'[n];
    InsertKeys(I.live, j, x, I.lo, h);
    assert Owns(n, I'.live, om');
    forall i | -1 <= i < |I'.live|
      ensures KidOK(n, KidAt(I', i), KidLow(I', i), KidHigh(I', i, h), g', lm')
    {
      InsertedKid(I, j, x, c, h, i);
    }
    KidsByIndex(n, h, I', g', lm');
  }

  /** Child `i` after an insertion: an old child, the cut one, or the new one. */
  lemma InsertedKid<V>(I: Info<V>, j: int, x: ListNode<V>, c: Child<V>, h: int, i: int)
    requires |I.live| == |I.kids| >= 1 && -1 <= j < |I.live| && -1 <= i <= |I.live|
    ensures var J := InsertInfo(I, j, x, c);
            if i == j then KidAt(J, i) == KidAt(I, j) && KidLow(J, i) == KidLow(I, j) && KidHigh(J, i, h) == x.key
            else if i == j + 1 then KidAt(J, i) == c && KidLow(J, i) == x.key && KidHigh(J, i, h) == KidHigh(I, j, h)
            else var k := if i < j then i else i - 1;
                 KidAt(J, i) == KidAt(I, k) && KidLow(J, i) == KidLow(I, k) && KidHigh(J, i, h) == KidHigh(I, k, h)
  {
  }

  /** The children of a node by index, the lesser one being `-1`. */
  lemma KidsByIndex<V>(n: Internal<V>, h: int, I: Info<V>, g: InnerMap<V>, lm: LeafMap<V>)
    requires n in g && |I.live| == |I.kids| >= 1
    ensures KidsOK(n, h, I, g, lm) <==>
            forall i {:trigger KidAt(I, i)} :: -1 <= i < |I.live| ==> KidOK(n, KidAt(I, i), KidLow(I, i), KidHigh(I, i, h), g, lm)
  {
    assert KidAt(I, -1) == I.lesser;
    assert forall i :: 0 <= i < |I.live| ==> KidAt(I, i) == I.kids[i];
  }

  /** A node none of whose routed children changed is still in order. */
  lemma InnerFrame<V>(q: Internal<V>, h: int, g: InnerMap<V>, lm: LeafMap<V>, om: OwnerMap<V>,
                      g': InnerMap<V>, lm': LeafMap<V>, om': OwnerMap<V>)
    requires q in g && Inner(q, h, g, lm, om)
    requires q in g' && g'[q].lo == g[q].lo && g'[q].lesser == g[q].lesser && g'[q].live == g[q].live
    requires g'[q].kids == g[q].kids && g'[q].rank >= g[q].rank
    requires forall m :: m in g && g[m].parent == q && g[m].rank < g[q].rank ==>
               m in g' && g'[m].lo == g[m].lo && g'[m].hi == g[m].hi && g'[m].parent == q && g'[m].rank == g[m].rank
    requires forall l :: l in lm && lm[l].parent == q ==> l in lm' && lm'[l] == lm[l]
    requires forall x :: x in om && om[x] == q ==> x in om' && om'[x] == q
    ensures Inner(q, h, g', lm', om')
  {
    var I := g[q];
    assert forall c: Child<V>, lo, hi {:trigger KidOK(q, c, lo, hi, g', lm')} ::
        KidOK(q, c, lo, hi, g, lm) ==> KidOK(q, c, lo, hi, g', lm');
  }

  // ----- splitting a node -----

  predicate Moves<V>(I: Info<V>, n: Internal<V>, mk: int, rank: nat) {
    I.parent == n && I.lo >= mk && I.rank < rank
  }

  /** The children of `n` from key `mk` on are handed to `right`. */
  function Reparent<V>(g: InnerMap<V>, n: Internal<V>, mk: int, right: Internal<V>): InnerMap<V>
    requires n in g
  {
    map q | q in g :: if Moves(g[q], n, mk, g[n].rank) then g[q].(parent := right) else g[q]
  }

  function ReparentLeaves<V>(lm: LeafMap<V>, n: Internal<V>, mk: int, right: Internal<V>): LeafMap<V> {
    map l | l in lm :: if lm[l].parent == n && lm[l].lo >= mk then lm[l].(parent := right) else lm[l]
  }

  function LeftInfo<V>(I: Info<V>, mid: nat): Info<V>
    requires mid < |I.live| == |I.kids|
  {
    I.(live := I.live[..mid], kids := I.kids[..mid])
  }

  function RightInfo<V>(I: Info<V>, mid: nat, up: Internal<V>): Info<V>
    requires mid < |I.live| == |I.kids|
  {
    Info(I.live[mid].key, I.hi, up, I.rank, I.kids[mid], I.live[mid + 1..], I.kids[mid + 1..])
  }

  /** The maps after node `n` was split around live position `mid`. */
  function SplitMap<V>(g: InnerMap<V>, n: Internal<V>, mid: nat, right: Internal<V>, up: Internal<V>): InnerMap<V>
    requires n in g && mid < |g[n].live| == |g[n].kids|
  {
    Reparent(g, n, g[n].live[mid].key, right)[n := LeftInfo(g[n], mid)][right := RightInfo(g[n], mid, up)]
  }

  function SplitOwners<V>(om: OwnerMap<V>, live: seq<ListNode<V>>, mid: nat, right: Internal<V>, up: Internal<V>): OwnerMap<V>
    requires mid < |live|
  {
    map x | x in om :: if x in live[mid + 1..] then right else if x == live[mid] then up else om[x]
  }

  lemma SplitLeft<V>(n: Internal<V>, mid: nat, right: Internal<V>, up: Internal<V>,
                     g: InnerMap<V>, lm: LeafMap<V>, om: OwnerMap<V>)
    requires n in g && Inner(n, g[n].hi, g, lm, om) && 1 <= mid < |g[n].live|
    requires right !in g && up !in g && right != up
    ensures var mk := g[n].live[mid].key;
            Inner(n, mk, SplitMap(g, n, mid, right, up), ReparentLeaves(lm, n, mk, right), SplitOwners(om, g[n].live, mid, right, up))
  {
    var I, mk := g[n], g[n].live[mid].key;
    var g', lm', om' := SplitMap(g, n, mid, right, up), ReparentLeaves(lm, n, mk, right), SplitOwners(om, I.live, mid, right, up);
    var J := g'[n];
    SplitOwned(n, mid, right, up, I.live, om);
    assert KeysOK(J.live, J.lo, mk);
    KidStays(n, mid, right, up, I.lesser, I.lo, I.live[0].key, g, lm);
    assert KidsOK(n, mk, J, g', lm') by {
      forall i | 0 <= i < mid
        ensures KidOK(n, J.kids[i], J.live[i].key, Upper(J.live, i, mk), g', lm')
      {
        assert Upper(J.live, i, mk) == Upper(I.live, i, I.hi) <= mk;
        KidStays(n, mid, right, up, I.kids[i], I.live[i].key, Upper(I.live, i, I.hi), g, lm);
      }
    }
  }

  lemma SplitOwned<V>(n: Internal<V>, mid: nat, right: Internal<V>, up: Internal<V>, live: seq<ListNode<V>>, om: OwnerMap<V>)
    requires mid < |live| && Owns(n, live, om)
    requires forall i, j :: 0 <= i < j < |live| ==> live[i].key < live[j].key
    ensures var om' := SplitOwners(om, live, mid, right, up);
            Owns(n, live[..mid], om') && Owns(right, live[mid + 1..], om') && live[mid] in om' && om'[live[mid]] == up
  {
    assert forall i :: 0 <= i <= mid ==> live[i] !in live[mid + 1..];
  }

  lemma KidStays<V>(n: Internal<V>, mid: nat, right: Internal<V>, up: Internal<V>, c: Child<V>, lo: int, hi: int,
                    g: InnerMap<V>, lm: LeafMap<V>)
    requires n in g && mid < |g[n].live| == |g[n].kids| && right !in g
    requires KidOK(n, c, lo, hi, g, lm) && hi <= g[n].live[mid].key
    ensures KidOK(n, c, lo, hi, SplitMap(g, n, mid, right, up), ReparentLeaves(lm, n, g[n].live[mid].key, right))
  {
  }

  lemma KidMoves<V>(n: Internal<V>, mid: nat, right: Internal<V>, up: Internal<V>, c: Child<V>, lo: int, hi: int,
                    g: InnerMap<V>, lm: LeafMap<V>)
    requires n in g && mid < |g[n].live| == |g[n].kids| && right !in g
    requires KidOK(n, c, lo, hi, g, lm) && g[n].live[mid].key <= lo
    ensures KidOK(right, c, lo, hi, SplitMap(g, n, mid, right, up), ReparentLeaves(lm, n, g[n].live[mid].key, right))
  {
  }

  lemma SplitRight<V>(n: Internal<V>, mid: nat, right: Internal<V>, up: Internal<V>,
                      g: InnerMap<V>, lm: LeafMap<V>, om: OwnerMap<V>)
    requires n in g && Inner(n, g[n].hi, g, lm, om) && 1 <= mid && mid + 1 < |g[n].live|
    requires right !in g && up !in g && right != up
    ensures var mk := g[n].live[mid].key;
            Inner(right, g[n].hi, SplitMap(g, n, mid, right, up), ReparentLeaves(lm, n, mk, right), SplitOwners(om, g[n].live, mid, right, up))
  {
    var I, mk := g[n], g[n].live[mid].key;
    var g', lm', om' := SplitMap(g, n, mid, right, up), ReparentLeaves(lm, n, mk, right), SplitOwners(om, I.live, mid, right, up);
    var J := g'[right];
    SplitOwned(n, mid, right, up, I.live, om);
    assert KeysOK(J.live, J.lo, I.hi);
    KidMoves(n, mid, right, up, I.kids[mid], mk, I.live[mid + 1].key, g, lm);
    forall i | 0 <= i < |J.live|
      ensures KidOK(right, J.kids[i], J.live[i].key, Upper(J.live, i, I.hi), g', lm')
    {
      SplitRightKid(n, mid, right, up, g, lm, i);
    }
  }

  lemma SplitRightKid<V>(n: Internal<V>, mid: nat, right: Internal<V>, up: Internal<V>, g: InnerMap<V>, lm: LeafMap<V>, i: nat)
    requires n in g && right !in g && KeysOK(g[n].live, g[n].lo, g[n].hi) && KidsOK(n, g[n].hi, g[n], g, lm)
    requires mid + 1 + i < |g[n].live|
    ensures var J := RightInfo(g[n], mid, up);
            KidOK(right, J.kids[i], J.live[i].key, Upper(J.live, i, J.hi), SplitMap(g, n, mid, right, up),
                  ReparentLeaves(lm, n, g[n].live[mid].key, right))
  {
    var I, J, k := g[n], RightInfo(g[n], mid, up), mid + 1 + i;
    assert J.live[i] == I.live[k] && J.kids[i] == I.kids[k] && Upper(J.live, i, I.hi) == Upper(I.live, k, I.hi);
    KidMoves(n, mid, right, up, I.kids[k], I.live[k].key, Upper(I.live, k, I.hi), g, lm);
  }

  /** The split leaves every other node in order. */
  lemma SplitOthers<V>(q: Internal<V>, n: Internal<V>, mid: nat, right: Internal<V>, up: Internal<V>,
                       g: InnerMap<V>, lm: LeafMap<V>, om: OwnerMap<V>)
    requires n in g && Inner(n, g[n].hi, g, lm, om) && 1 <= mid < |g[n].live|
    requires q in g && q != n && Inner(q, g[q].hi, g, lm, om)
    requires right !in g && up !in g && right != up
    ensures var mk := g[n].live[mid].key;
            Inner(q, g[q].hi, SplitMap(g, n, mid, right, up), ReparentLeaves(lm, n, mk, right), SplitOwners(om, g[n].live, mid, right, up))
  {
    InnerFrame(q, g[q].hi, g, lm, om, SplitMap(g, n, mid, right, up),
               ReparentLeaves(lm, n, g[n].live[mid].key, right), SplitOwners(om, g[n].live, mid, right, up));
  }

  // ----- passing a split on to the parent -----

  /** Node `c` was split at key `mk`: `right` answers from there on, and `up`, a node over
      both, is not placed yet.  Until it is, `c` still claims its whole interval. */
  ghost predicate SplitPending<V>(c: Internal<V>, up: Internal<V>, right: Internal<V>, x: ListNode<V>, g: InnerMap<V>, om: OwnerMap<V>) {
    && c in g && right in g && right != c && up !in g
    && x in om && om[x] == up && FLOOR <= g[c].lo < x.key < g[c].hi
    && g[right].lo == x.key && g[right].hi == g[c].hi && g[right].parent == up && g[right].rank == g[c].rank
  }

  /** The whole new root becomes a child: the first branch of `insert_internal`.  Its lesser
      child is `c`, also the lesser child of `p`, but with an empty interval. */
  function WrapMap<V>(g: InnerMap<V>, p: Internal<V>, c: Internal<V>, up: Internal<V>, right: Internal<V>, x: ListNode<V>, y: ListNode<V>): InnerMap<V>
    requires p in g && c in g && |g[p].live| == |g[p].kids|
  {
    g[c := g[c].(hi := x.key)]
     [up := Info(x.key, g[c].hi, p, g[c].rank + 1, N(c), [x], [N(right)])]
     [p := InsertInfo(g[p], -1, y, N(up))]
  }

  lemma WrapOK<V>(p: Internal<V>, c: Internal<V>, up: Internal<V>, right: Internal<V>, x: ListNode<V>, y: ListNode<V>,
                  g: InnerMap<V>, lm: LeafMap<V>, om: OwnerMap<V>)
    requires AllInner(g, lm, om, c, x.key) && SplitPending(c, up, right, x, g, om)
    requires p in g && p != c && g[p].lesser == N(c) && g[c].parent == p && g[c].rank + 2 <= g[p].rank
    requires |g[p].live| >= 1 && g[p].lo == g[c].lo && g[p].live[0].key == g[c].hi && y !in om && y.key == x.key
    ensures |g[p].live| == |g[p].kids|
    ensures AllInner(WrapMap(g, p, c, up, right, x, y), lm, om[y := p], null, 0)
  {
    hide Inner;
    assert Inner(p, g[p].hi, g, lm, om) && Inner(c, x.key, g, lm, om);
    InnerShape(p, g[p].hi, g, lm, om);
    var g', om' := WrapMap(g, p, c, up, right, x, y), om[y := p];
    WrapNode(p, c, up, right, x, y, g, lm, om);
    WrapParent(p, c, up, right, x, y, g, lm, om);
    forall q | q in g && q != p
      ensures Inner(q, g'[q].hi, g', lm, om')
    {
      assert Inner(q, if q == c then x.key else g[q].hi, g, lm, om);
      InnerFrame(q, if q == c then x.key else g[q].hi, g, lm, om, g', lm, om');
    }
  }

  lemma InnerShape<V>(n: Internal<V>, h: int, g: InnerMap<V>, lm: LeafMap<V>, om: OwnerMap<V>)
    requires n in g && Inner(n, h, g, lm, om)
    ensures |g[n].live| == |g[n].kids| >= 1
  {
  }

  /** The new root as a node of its own. */
  lemma WrapNode<V>(p: Internal<V>, c: Internal<V>, up: Internal<V>, right: Internal<V>, x: ListNode<V>, y: ListNode<V>,
                    g: InnerMap<V>, lm: LeafMap<V>, om: OwnerMap<V>)
    requires p in g && p != c && |g[p].live| == |g[p].kids| && SplitPending(c, up, right, x, g, om) && y !in om
    requires g[c].rank < g[p].rank
    ensures Inner(up, g[c].hi, WrapMap(g, p, c, up, right, x, y), lm, om[y := p])
  {
    assert WrapMap(g, p, c, up, right, x, y)[right] == g[right];
  }

  lemma WrapParent<V>(p: Internal<V>, c: Internal<V>, up: Internal<V>, right: Internal<V>, x: ListNode<V>, y: ListNode<V>,
                      g: InnerMap<V>, lm: LeafMap<V>, om: OwnerMap<V>)
    requires p in g && Inner(p, g[p].hi, g, lm, om) && SplitPending(c, up, right, x, g, om)
    requires p != c && g[p].lesser == N(c) && g[c].parent == p && g[c].rank + 2 <= g[p].rank
    requires g[p].lo == g[c].lo && g[p].live[0].key == g[c].hi && y !in om && y.key == x.key
    ensures Inner(p, g[p].hi, WrapMap(g, p, c, up, right, x, y), lm, om[y := p])
  {
    var I, g' := g[p], WrapMap(g, p, c, up, right, x, y);
    KidsByIndex(p, I.hi, I, g, lm);
    forall i | -1 <= i < |I.live| && i != -1
      ensures KidOK(p, KidAt(I, i), KidLow(I, i), KidHigh(I, i, I.hi), g', lm)
    {
      OtherKid(p, I, i, -1, c, g, lm);
    }
    InsertInner(p, I.hi, -1, y, N(up), g, lm, om, g', lm, om[y := p]);
  }

  /** No other child of `p` is the one at position `j`. */
  lemma OtherKid<V>(p: Internal<V>, I: Info<V>, i: int, j: int, c: Internal<V>, g: InnerMap<V>, lm: LeafMap<V>)
    requires p in g && |I.live| == |I.kids| >= 1 && KeysOK(I.live, I.lo, I.hi)
    requires -1 <= i < |I.live| && -1 <= j < |I.live| && i != j && c in g
    requires KidOK(p, KidAt(I, i), KidLow(I, i), KidHigh(I, i, I.hi), g, lm)
    requires KidLow(I, j) == g[c].lo && KidHigh(I, j, I.hi) == g[c].hi && g[c].lo < g[c].hi
    ensures KidLow(I, i) < KidHigh(I, i, I.hi) ==> KidAt(I, i) != N(c)
  {
  }

  /** Only the right node becomes a child: the second branch of `insert_internal`. */
  function AdoptMap<V>(g: InnerMap<V>, p: Internal<V>, j: int, c: Internal<V>, right: Internal<V>, y: ListNode<V>): InnerMap<V>
    requires p in g && c in g && right in g && -1 <= j < |g[p].live| == |g[p].kids|
  {
    g[c := g[c].(hi := y.key)][right := g[right].(parent := p)][p := InsertInfo(g[p], j, y, N(right))]
  }

  lemma AdoptOK<V>(p: Internal<V>, j: int, c: Internal<V>, up: Internal<V>, right: Internal<V>, x: ListNode<V>, y: ListNode<V>,
                   g: InnerMap<V>, lm: LeafMap<V>, om: OwnerMap<V>)
    requires AllInner(g, lm, om, c, x.key) && SplitPending(c, up, right, x, g, om)
    requires p in g && p != c && 0 <= j < |g[p].live| == |g[p].kids| && g[p].kids[j] == N(c)
    requires g[c].parent == p && g[c].rank + 2 <= g[p].rank
    requires g[p].live[j].key == g[c].lo && Upper(g[p].live, j, g[p].hi) == g[c].hi && y !in om && y.key == x.key
    ensures AllInner(AdoptMap(g, p, j, c, right, y), lm, om[y := p], null, 0)
  {
    hide Inner;
    assert Inner(p, g[p].hi, g, lm, om) && Inner(c, x.key, g, lm, om);
    var g', om' := AdoptMap(g, p, j, c, right, y), om[y := p];
    AdoptParent(p, j, c, up, right, x, y, g, lm, om);
    forall q | q in g && q != p
      ensures Inner(q, g'[q].hi, g', lm, om')
    {
      assert Inner(q, if q == c then x.key else g[q].hi, g, lm, om);
      InnerFrame(q, if q == c then x.key else g[q].hi, g, lm, om, g', lm, om');
    }
  }

  lemma AdoptParent<V>(p: Internal<V>, j: int, c: Internal<V>, up: Internal<V>, right: Internal<V>, x: ListNode<V>, y: ListNode<V>,
                       g: InnerMap<V>, lm: LeafMap<V>, om: OwnerMap<V>)
    requires p in g && Inner(p, g[p].hi, g, lm, om) && SplitPending(c, up, right, x, g, om)
    requires p != c && 0 <= j < |g[p].live| && g[p].kids[j] == N(c) && g[c].parent == p && g[c].rank + 2 <= g[p].rank
    requires g[p].live[j].key == g[c].lo && Upper(g[p].live, j, g[p].hi) == g[c].hi && y !in om && y.key == x.key
    ensures Inner(p, g[p].hi, AdoptMap(g, p, j, c, right, y), lm, om[y := p])
  {
    var I, g' := g[p], AdoptMap(g, p, j, c, right, y);
    KidsByIndex(p, I.hi, I, g, lm);
    forall i | -1 <= i < |I.live| && i != j
      ensures KidOK(p, KidAt(I, i), KidLow(I, i), KidHigh(I, i, I.hi), g', lm)
    {
      OtherKid(p, I, i, j, c, g, lm);
    }
    InsertInner(p, I.hi, j, y, N(right), g, lm, om, g', lm, om[y := p]);
  }

  /** A split root gets the new node as its parent. */
  function RootMap<V>(g: InnerMap<V>, c: Internal<V>, up: Internal<V>, right: Internal<V>, x: ListNode<V>): InnerMap<V>
    requires c in g
  {
    g[c := g[c].(hi := x.key, parent := up)][up := Info(g[c].lo, g[c].hi, null, g[c].rank + 1, N(c), [x], [N(right)])]
  }

  lemma RootOK<V>(c: Internal<V>, up: Internal<V>, right: Internal<V>, x: ListNode<V>, g: InnerMap<V>, lm: LeafMap<V>, om: OwnerMap<V>)
    requires AllInner(g, lm, om, c, x.key) && SplitPending(c, up, right, x, g, om)
    requires g[c].parent == null
    ensures AllInner(RootMap(g, c, up, right, x), lm, om, null, 0)
  {
    var g' := RootMap(g, c, up, right, x);
    assert Inner(up, g'[up].hi, g', lm, om) by {
      assert g'[right] == g[right];
    }
    forall q | q in g
      ensures Inner(q, g'[q].hi, g', lm, om)
    {
      assert Inner(q, if q == c then x.key else g[q].hi, g, lm, om);
      InnerFrame(q, if q == c then x.key else g[q].hi, g, lm, om, g', lm, om);
    }
  }

  // ----- a leaf split seen by its parent -----

  function CutLeaf<V>(lm: LeafMap<V>, l: Leaf<V>, nl: Leaf<V>, pk: int): LeafMap<V>
    requires l in lm
  {
    lm[l := lm[l].(hi := pk)][nl := LeafInfo(pk, lm[l].hi, lm[l].parent)]
  }

  lemma CutLeafOK<V>(p: Internal<V>, j: int, l: Leaf<V>, nl: Leaf<V>, y: ListNode<V>, g: InnerMap<V>, lm: LeafMap<V>, om: OwnerMap<V>)
    requires AllInner(g, lm, om, null, 0) && p in g && -1 <= j < |g[p].live| == |g[p].kids| && KidAt(g[p], j) == L(l)
    requires l in lm && lm[l] == LeafInfo(KidLow(g[p], j), KidHigh(g[p], j, g[p].hi), p) && nl !in lm
    requires lm[l].lo < y.key < lm[l].hi && y !in om
    ensures AllInner(g[p := InsertInfo(g[p], j, y, L(nl))], CutLeaf(lm, l, nl, y.key), om[y := p], null, 0)
  {
    assert Inner(p, g[p].hi, g, lm, om);
    var g', lm', om' := g[p := InsertInfo(g[p], j, y, L(nl))], CutLeaf(lm, l, nl, y.key), om[y := p];
    assert Inner(p, g[p].hi, g', lm', om') by {
      CutLeafParent(p, j, l, nl, y, g, lm, om);
    }
    forall q | q in g && q != p
      ensures Inner(q, g'[q].hi, g', lm', om')
    {
      assert Inner(q, g[q].hi, g, lm, om);
      InnerFrame(q, g[q].hi, g, lm, om, g', lm', om');
    }
  }

  lemma CutLeafParent<V>(p: Internal<V>, j: int, l: Leaf<V>, nl: Leaf<V>, y: ListNode<V>, g: InnerMap<V>, lm: LeafMap<V>, om: OwnerMap<V>)
    requires p in g && Inner(p, g[p].hi, g, lm, om) && -1 <= j < |g[p].live| && KidAt(g[p], j) == L(l)
    requires l in lm && lm[l] == LeafInfo(KidLow(g[p], j), KidHigh(g[p], j, g[p].hi), p) && nl !in lm
    requires lm[l].lo < y.key < lm[l].hi && y !in om
    ensures Inner(p, g[p].hi, g[p := InsertInfo(g[p], j, y, L(nl))], CutLeaf(lm, l, nl, y.key), om[y := p])
  {
    var I, g', lm' := g[p], g[p := InsertInfo(g[p], j, y, L(nl))], CutLeaf(lm, l, nl, y.key);
    KidsByIndex(p, I.hi, I, g, lm);
    forall i | -1 <= i < |I.live| && i != j
      ensures KidOK(p, KidAt(I, i), KidLow(I, i), KidHigh(I, i, I.hi), g', lm')
    {
      assert KidLow(I, i) < KidHigh(I, i, I.hi) ==> KidAt(I, i) != L(l);
    }
    InsertInner(p, I.hi, j, y, L(nl), g, lm, om, g', lm', om[y := p]);
  }

  /** Splitting one node keeps all of them in order, the split one up to its middle key. */
  lemma SplitAll<V>(n: Internal<V>, mid: nat, right: Internal<V>, up: Internal<V>, g: InnerMap<V>, lm: LeafMap<V>, om: OwnerMap<V>)
    requires AllInner(g, lm, om, null, 0) && n in g && 1 <= mid && mid + 1 < |g[n].live| == |g[n].kids|
    requires right !in g && up !in g && right != up && FLOOR <= g[n].lo
    ensures var x := g[n].live[mid];
            var g', lm', om' := SplitMap(g, n, mid, right, up), ReparentLeaves(lm, n, x.key, right), SplitOwners(om, g[n].live, mid, right, up);
            AllInner(g', lm', om', n, x.key) && SplitPending(n, up, right, x, g', om')
  {
    hide Inner;
    assert Inner(n, g[n].hi, g, lm, om);
    SplitLeft(n, mid, right, up, g, lm, om);
    SplitRight(n, mid, right, up, g, lm, om);
    SplitIsPending(n, mid, right, up, g, lm, om);
    forall q | q in g && q != n
      ensures Inner(q, g[q].hi, SplitMap(g, n, mid, right, up), ReparentLeaves(lm, n, g[n].live[mid].key, right), SplitOwners(om, g[n].live, mid, right, up))
    {
      assert Inner(q, g[q].hi, g, lm, om);
      SplitOthers(q, n, mid, right, up, g, lm, om);
    }
  }

  lemma SplitIsPending<V>(n: Internal<V>, mid: nat, right: Internal<V>, up: Internal<V>, g: InnerMap<V>, lm: LeafMap<V>, om: OwnerMap<V>)
    requires n in g && Inner(n, g[n].hi, g, lm, om) && 1 <= mid < |g[n].live|
    requires right !in g && up !in g && right != up && FLOOR <= g[n].lo
    ensures SplitPending(n, up, right, g[n].live[mid], SplitMap(g, n, mid, right, up), SplitOwners(om, g[n].live, mid, right, up))
  {
    SplitOwned(n, mid, right, up, g[n].live, om);
  }

  // ----- making room between ranks -----

  function Doubled<V>(g: InnerMap<V>): InnerMap<V> { map q | q in g :: g[q].(rank := 2 * g[q].rank) }

  lemma DoubledOK<V>(g: InnerMap<V>, lm: LeafMap<V>, om: OwnerMap<V>)
    requires AllInner(g, lm, om, null, 0)
    ensures AllInner(Doubled(g), lm, om, null, 0) && Roomy(Doubled(g))
  {
    hide Inner;
    forall q | q in g
      ensures Inner(q, Doubled(g)[q].hi, Doubled(g), lm, om)
    {
      assert Inner(q, g[q].hi, g, lm, om);
      DoubledInner(q, g, lm, om);
    }
  }

  lemma DoubledInner<V>(q: Internal<V>, g: InnerMap<V>, lm: LeafMap<V>, om: OwnerMap<V>)
    requires q in g && Inner(q, g[q].hi, g, lm, om)
    ensures Inner(q, g[q].hi, Doubled(g), lm, om)
  {
    assert forall c: Child<V>, lo, hi {:trigger KidOK(q, c, lo, hi, Doubled(g), lm)} ::
        KidOK(q, c, lo, hi, g, lm) ==> KidOK(q, c, lo, hi, Doubled(g), lm);
  }
}
