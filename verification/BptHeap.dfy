/** The pointer operations of the B+ tree, one node at a time: walking and splicing an
    internal node's list, splitting a node, inserting into and splitting a leaf. */
module BptHeap {
  import opened LeafLists
  import opened BptShape

  /** The live nodes are linked in order.  What follows the last one is a stale tail: absent,
      or beginning with a key that is never routed to this node. */
  ghost predicate Wired<V>(live: seq<ListNode<V>>, h: int)
    requires |live| >= 1
    reads live`next
  {
    && (forall i {:trigger live[i].next} :: 0 <= i < |live| - 1 ==> live[i].next == live[i + 1])
    && var last := live[|live| - 1]; last.next == null || last.next.key >= h
  }

  ghost predicate Carries<V>(live: seq<ListNode<V>>, kids: seq<Child<V>>)
    reads live`child
  {
    |live| == |kids| && forall i :: 0 <= i < |live| ==> live[i].child == kids[i]
  }

  /** The fields of `n` hold these live children, if its interval ends at `h`. */
  ghost predicate Holds<V>(n: Internal<V>, lesser: Child<V>, live: seq<ListNode<V>>, kids: seq<Child<V>>, h: int)
    reads n, live
  {
    && |live| >= 1 && n.size == |live| && n.root == live[0] && n.lesser == lesser
    && Wired(live, h) && Carries(live, kids)
  }

  function Spliced<T>(s: seq<T>, p: nat, x: T): seq<T>
    requires p <= |s|
  {
    s[..p] + [x] + s[p..]
  }

  /** `get_child_ln_ge`: the last live list node whose key is not above `key`.  The walk
      follows the whole chain, but never steps onto the stale tail. */
  method ChildNode<V>(n: Internal<V>, key: int, ghost live: seq<ListNode<V>>, ghost lo: int, ghost h: int)
    returns (x: ListNode<V>, ghost j: nat)
    requires |live| >= 1 && n.root == live[0] && Wired(live, h) && KeysOK(live, lo, h) && live[0].key <= key < h
    ensures j < |live| && x == live[j] && live[j].key <= key < Upper(live, j, h)
  {
    x, j := n.root, 0;
    while x.next != null
      invariant j < |live| && x == live[j] && live[j].key <= key
      decreases |live| - j
    {
      if key < x.next.key {
        break;
      }
      x, j := x.next, j + 1;
    }
  }

  /** `get_child_ge`: the child a key is routed to. */
  method RouteStep<V>(n: Internal<V>, key: int, ghost I: Info<V>, ghost h: int) returns (c: Child<V>, ghost j: int)
    requires Holds(n, I.lesser, I.live, I.kids, h) && KeysOK(I.live, I.lo, h) && I.lo <= key < h
    ensures -1 <= j < |I.live| == |I.kids| && c == KidAt(I, j)
    ensures KidLow(I, j) <= key < KidHigh(I, j, h)
  {
    if key < n.root.key {
      c, j := n.lesser, -1;
    } else {
      var x;
      x, j := ChildNode(n, key, I.live, I.lo, h);
      c := x.child;
    }
  }

  ghost predicate NoDuplicates<V>(live: seq<ListNode<V>>) {
    forall i, j :: 0 <= i < j < |live| ==> live[i] != live[j]
  }

  lemma NodesDistinct<V>(live: seq<ListNode<V>>)
    requires forall i, j :: 0 <= i < j < |live| ==> live[i].key < live[j].key
    ensures NoDuplicates(live)
  {
  }

  /** `list_node::insert_after`, into a wired list. */
  method SpliceAfter<V>(x: ListNode<V>, node: ListNode<V>, ghost live: seq<ListNode<V>>, ghost j: nat, ghost h: int)
    requires NoDuplicates(live) && j < |live| && Wired(live, h) && node == live[j] && x !in live
    modifies x`next, node`next
    ensures Wired(Spliced(live, j + 1, x), h)
  {
    x.next := node.next;
    node.next := x;
    ghost var t := Spliced(live, j + 1, x);
    forall i | 0 <= i < |t| - 1
      ensures t[i].next == t[i + 1]
    {
      if i > j + 1 {
        assert t[i] == live[i - 1] && t[i + 1] == live[i];
      }
    }
  }

  /** `n->m_next = m_root; m_root = n`. */
  method SpliceFront<V>(x: ListNode<V>, root: ListNode<V>, ghost live: seq<ListNode<V>>, ghost h: int)
    requires |live| >= 1 && Wired(live, h) && root == live[0] && x !in live
    modifies x`next
    ensures Wired(Spliced(live, 0, x), h)
  {
    x.next := root;
    ghost var t := Spliced(live, 0, x);
    forall i | 0 <= i < |t| - 1
      ensures t[i].next == t[i + 1]
    {
      if i > 0 {
        assert t[i] == live[i - 1] && t[i + 1] == live[i];
      }
    }
  }

  lemma CarriesSpliced<V>(live: seq<ListNode<V>>, kids: seq<Child<V>>, p: nat, x: ListNode<V>)
    requires Carries(live, kids) && p <= |live|
    ensures Carries(Spliced(live, p, x), Spliced(kids, p, x.child))
  {
  }

  method InsertFront<V>(n: Internal<V>, x: ListNode<V>, ghost lesser: Child<V>, ghost live: seq<ListNode<V>>, ghost kids: seq<Child<V>>, ghost h: int)
    requires Holds(n, lesser, live, kids, h) && x !in live
    modifies n`root, n`size, x`next
    ensures Holds(n, lesser, Spliced(live, 0, x), Spliced(kids, 0, x.child), h)
  {
    CarriesSpliced(live, kids, 0, x);
    SpliceFront(x, n.root, live, h);
    n.root, n.size := x, n.size + 1;
  }

  method InsertBehind<V>(n: Internal<V>, x: ListNode<V>, node: ListNode<V>, ghost lesser: Child<V>, ghost live: seq<ListNode<V>>,
                         ghost kids: seq<Child<V>>, ghost j: nat, ghost h: int)
    requires Holds(n, lesser, live, kids, h) && NoDuplicates(live) && x !in live && j < |live| && node == live[j]
    modifies n`size, x`next, node`next
    ensures Holds(n, lesser, Spliced(live, j + 1, x), Spliced(kids, j + 1, x.child), h)
  {
    CarriesSpliced(live, kids, j + 1, x);
    SpliceAfter(x, node, live, j, h);
    n.size := n.size + 1;
  }

  /** `insert_leaf` and the list part of `insert_internal`: a new list node for child `c`. */
  method InsertKid<V>(n: Internal<V>, key: int, c: Child<V>, ghost I: Info<V>, ghost j: int, ghost h: int) returns (x: ListNode<V>)
    requires Holds(n, I.lesser, I.live, I.kids, h) && KeysOK(I.live, I.lo, h) && Position(I.live, j, key, h)
    modifies n`root, n`size, I.live`next
    ensures fresh(x) && x.key == key
    ensures Holds(n, I.lesser, Spliced(I.live, j + 1, x), Spliced(I.kids, j + 1, c), h)
  {
    x := new ListNode(key, c);
    if key < n.root.key {
      InsertFront(n, x, I.lesser, I.live, I.kids, h);
    } else {
      var node;
      ghost var j';
      node, j' := ChildNode(n, key, I.live, I.lo, h);
      SamePosition(I.live, j, j', key, I.lo, h);
      NodesDistinct(I.live);
      InsertBehind(n, x, node, I.lesser, I.live, I.kids, j', h);
    }
  }

  lemma SamePosition<V>(live: seq<ListNode<V>>, j: int, j': nat, key: int, lo: int, h: int)
    requires KeysOK(live, lo, h) && Position(live, j, key, h) && j' < |live| && live[j'].key <= key < Upper(live, j', h)
    ensures j == j'
  {
  }

  /** `list_node::skip` within the live part. */
  method Skip<V>(root: ListNode<V>, count: nat, ghost live: seq<ListNode<V>>, ghost h: int) returns (x: ListNode<V>)
    requires |live| >= 1 && Wired(live, h) && root == live[0] && count < |live|
    ensures x == live[count]
  {
    x := root;
    var i := 0;
    while i < count
      invariant i <= count && x == live[i]
    {
      assert live[i].next == live[i + 1];
      x := x.next;
      i := i + 1;
    }
  }

  /** Moves the middle list node out; the left part keeps it as a stale tail. */
  method CutMiddle<V>(x: ListNode<V>, ghost live: seq<ListNode<V>>, ghost mid: nat, ghost h: int) returns (rest: ListNode<V>)
    requires NoDuplicates(live) && |live| >= 1 && Wired(live, h) && 1 <= mid && mid + 1 < |live| && x == live[mid]
    modifies x`next
    ensures Wired(live[..mid], live[mid].key) && Wired(live[mid + 1..], h)
    ensures rest == live[mid + 1] && x.next == null
  {
    assert live[mid].next == live[mid + 1] && live[mid - 1].next == live[mid - 1 + 1];
    rest := x.next;
    x.next := null;
    assert Wired(live[..mid], live[mid].key);
    ghost var t := live[mid + 1..];
    assert forall i :: 0 <= i < |t| ==> t[i] == live[mid + 1 + i];
  }

  /** The right node takes over the middle list node's child as its lesser one. */
  method NewRight<V>(x: ListNode<V>, rest: ListNode<V>, n: nat, ghost live: seq<ListNode<V>>, ghost kids: seq<Child<V>>, ghost mid: nat)
    returns (right: Internal<V>)
    requires Carries(live, kids) && mid < |live| && x == live[mid]
    requires forall i :: 0 <= i < |live| && i != mid ==> live[i] != x
    modifies x`child
    ensures fresh(right) && right.lesser == kids[mid] && right.root == rest && right.size == n
    ensures x.child == N(right) && Carries(live[..mid], kids[..mid]) && Carries(live[mid + 1..], kids[mid + 1..])
  {
    right := new Internal(x.child, rest, n);
    x.child := N(right);
    CarriesSlices(live, kids, mid);
  }

  /** Both halves of a node around its middle list node. */
  method Halve<V>(n: Internal<V>, x: ListNode<V>, ghost I: Info<V>, mid: nat, ghost h: int) returns (right: Internal<V>)
    requires Holds(n, I.lesser, I.live, I.kids, h) && KeysOK(I.live, I.lo, h)
    requires 1 <= mid && mid + 1 < |I.live| && x == I.live[mid]
    modifies n`size, x`next, x`child
    ensures fresh(right) && x.next == null && x.child == N(right)
    ensures Holds(n, I.lesser, I.live[..mid], I.kids[..mid], x.key)
    ensures Holds(right, I.kids[mid], I.live[mid + 1..], I.kids[mid + 1..], h)
  {
    NodesDistinct(I.live);
    var rest := CutMiddle(x, I.live, mid, h);
    right := NewRight(x, rest, n.size - mid - 1, I.live, I.kids, mid);
    n.size := mid;
  }

  /** `bpt_internal::split`: half of the node, without the middle key, moves to a new right
      node, and a new root over both is returned. */
  method SplitNode<V>(n: Internal<V>, ghost I: Info<V>, ghost h: int)
    returns (up: Internal<V>, right: Internal<V>, x: ListNode<V>)
    requires Holds(n, I.lesser, I.live, I.kids, h) && KeysOK(I.live, I.lo, h) && |I.live| >= 3
    modifies n`size, I.live`next, I.live`child
    ensures fresh(up) && fresh(right) && up != right && x == I.live[|I.live| / 2]
    ensures Holds(n, I.lesser, I.live[..|I.live| / 2], I.kids[..|I.live| / 2], x.key)
    ensures Holds(right, I.kids[|I.live| / 2], I.live[|I.live| / 2 + 1..], I.kids[|I.live| / 2 + 1..], h)
    ensures up.size == 1 && up.lesser == N(n) && up.root == x && x.next == null && x.child == N(right)
  {
    var mid := n.size / 2;
    x := Skip(n.root, mid, I.live, h);
    up := new Internal(N(n), x, 1);
    right := Halve(n, x, I, mid, h);
  }

  /** Why a node needs a third entry: of two, the middle one is the last, and what follows it as
      the right node's list is nothing, or a stale tail. */
  lemma TwoEntriesLeaveNothing<V>(n: Internal<V>, I: Info<V>, h: int)
    requires Holds(n, I.lesser, I.live, I.kids, h) && |I.live| == 2
    ensures var x := I.live[n.size / 2]; n.size - n.size / 2 - 1 == 0 && (x.next == null || x.next.key >= h)
  {
  }

  lemma CarriesSlices<V>(live: seq<ListNode<V>>, kids: seq<Child<V>>, mid: nat)
    requires |live| == |kids| && mid < |live| && forall i :: 0 <= i < |live| && i != mid ==> live[i].child == kids[i]
    ensures Carries(live[..mid], kids[..mid]) && Carries(live[mid + 1..], kids[mid + 1..])
  {
  }

  /** `leaf::split`: the upper half becomes a new leaf, next in the chain. */
  method LeafSplit<V>(l: Leaf<V>) returns (nl: Leaf?<V>)
    requires l.list.Valid()
    modifies l`next, l.list, l.list.cells
    ensures l.list.Valid() && (nl == null <==> |old(l.list.entries)| < 2)
    ensures nl == null ==> l.next == old(l.next) && l.list.entries == old(l.list.entries) && l.list.cells == old(l.list.cells)
    ensures nl != null ==> fresh(nl) && fresh(nl.list) && nl.list.Valid() && l.next == nl && nl.next == old(l.next)
    ensures nl != null ==>
              var half := |old(l.list.entries)| / 2;
              && l.list.entries == old(l.list.entries)[..half] && nl.list.entries == old(l.list.entries)[half..]
              && l.list.cells == old(l.list.cells)[..half] && nl.list.cells == old(l.list.cells)[half..]
  {
    hide LeafList.Valid;
    var dest := new LeafList<V>();
    nl := new Leaf(dest);
    var ok := l.list.Split(dest);
    if !ok {
      return null;
    }
    LinkNext(l, nl);
  }

  /** The new leaf comes next in the chain. */
  method LinkNext<V>(l: Leaf<V>, nl: Leaf<V>)
    requires l != nl && nl.next == null
    modifies l`next, nl`next
    ensures l.next == nl && nl.next == old(l.next)
  {
    if l.next != null {
      nl.next := l.next;
    }
    l.next := nl;
  }

  lemma HalvesDisjoint<V>(cs: seq<Cell<V>>, half: nat)
    requires Distinct(cs) && half <= |cs|
    ensures forall c :: c in cs[half..] ==> c in cs && c !in cs[..half]
    ensures forall c :: c in cs[..half] ==> c in cs
  {
  }
}
