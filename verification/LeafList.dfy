/** The sorted linked list of a leaf: `leaf_list` and `list_node` of StateDatabase/list.h. */
module LeafLists {
  import opened Wrappers

  datatype Entry<+V> = Entry(key: int, val: V)

  ghost predicate Sorted<V>(s: seq<Entry<V>>) {
    forall i, j :: 0 <= i < j < |s| ==> s[i].key < s[j].key
  }

  /** The value a sequence of entries holds for a key. */
  function Find<V>(s: seq<Entry<V>>, k: int): Option<V> {
    if s == [] then None else if s[0].key == k then Some(s[0].val) else Find(s[1..], k)
  }

  /** The sorted sequence with the binding `k := v` added or replaced. */
  function Put<V>(s: seq<Entry<V>>, k: int, v: V): seq<Entry<V>> {
    if s == [] || k < s[0].key then [Entry(k, v)] + s
    else if k == s[0].key then [Entry(k, v)] + s[1..]
    else [s[0]] + Put(s[1..], k, v)
  }

  lemma {:induction false} PutInserts<V>(s: seq<Entry<V>>, p: nat, k: int, v: V)
    requires p <= |s|
    requires forall i :: 0 <= i < p ==> s[i].key < k
    requires p < |s| ==> k < s[p].key
    ensures Put(s, k, v) == s[..p] + [Entry(k, v)] + s[p..]
  {
    if p == 0 {
      assert s[..0] == [] && s[0..] == s;
    } else {
      PutInserts(s[1..], p - 1, k, v);
      assert s[1..][..p - 1] == s[1..p] && s[1..][p - 1..] == s[p..];
      assert s[..p] == [s[0]] + s[1..p];
    }
  }

  lemma {:induction false} PutReplaces<V>(s: seq<Entry<V>>, p: nat, k: int, v: V)
    requires p < |s| && s[p].key == k
    requires forall i :: 0 <= i < p ==> s[i].key < k
    ensures Put(s, k, v) == s[p := Entry(k, v)]
  {
    if p > 0 {
      PutReplaces(s[1..], p - 1, k, v);
    }
  }

  ghost predicate AtLeast<V>(s: seq<Entry<V>>, lo: int) { forall i :: 0 <= i < |s| ==> lo <= s[i].key }

  ghost predicate Below<V>(s: seq<Entry<V>>, hi: int) { forall i :: 0 <= i < |s| ==> s[i].key < hi }

  lemma {:induction false} PutBounds<V>(s: seq<Entry<V>>, k: int, v: V, lo: int, hi: int)
    ensures AtLeast(s, lo) && lo <= k ==> AtLeast(Put(s, k, v), lo)
    ensures Below(s, hi) && k < hi ==> Below(Put(s, k, v), hi)
    ensures |s| <= |Put(s, k, v)| <= |s| + 1 && Put(s, k, v) != []
  {
    if s != [] && k > s[0].key {
      PutBounds(s[1..], k, v, lo, hi);
    }
  }

  lemma {:induction false} PutSorted<V>(s: seq<Entry<V>>, k: int, v: V)
    requires Sorted(s)
    ensures Sorted(Put(s, k, v))
  {
    if s != [] && k > s[0].key {
      PutSorted(s[1..], k, v);
      PutBounds(s[1..], k, v, s[0].key + 1, 0);
      assert AtLeast(s[1..], s[0].key + 1);
      assert Put(s, k, v)[1..] == Put(s[1..], k, v);
    }
  }

  /** `Put` changes exactly one binding. */
  lemma {:induction false} PutFind<V>(s: seq<Entry<V>>, k: int, v: V, q: int)
    requires Sorted(s)
    ensures Find(Put(s, k, v), q) == if q == k then Some(v) else Find(s, q)
  {
    if s != [] && k > s[0].key {
      PutFind(s[1..], k, v, q);
      assert Put(s, k, v)[1..] == Put(s[1..], k, v);
    } else if s != [] && k == s[0].key {
      assert Put(s, k, v)[1..] == s[1..];
    } else {
      assert Put(s, k, v)[1..] == s;
    }
  }

  lemma {:induction false} FindOutside<V>(s: seq<Entry<V>>, k: int)
    requires forall i :: 0 <= i < |s| ==> s[i].key != k
    ensures Find(s, k) == None
  {
    if s != [] {
      FindOutside(s[1..], k);
    }
  }

  lemma {:induction false} FindAt<V>(s: seq<Entry<V>>, i: nat)
    requires Sorted(s) && i < |s|
    ensures Find(s, s[i].key) == Some(s[i].val)
  {
    if i > 0 {
      FindAt(s[1..], i - 1);
    }
  }

  lemma {:induction false} FindConcat<V>(s: seq<Entry<V>>, t: seq<Entry<V>>, k: int)
    ensures Find(s + t, k) == if Find(s, k).Some? then Find(s, k) else Find(t, k)
  {
    if s == [] {
      assert s + t == t;
    } else {
      FindConcat(s[1..], t, k);
      assert (s + t)[1..] == s[1..] + t;
    }
  }

  lemma InsertKeepsSorted<V>(s: seq<Entry<V>>, p: nat, e: Entry<V>)
    requires Sorted(s) && p <= |s|
    requires p > 0 ==> s[p - 1].key < e.key
    requires p < |s| ==> e.key < s[p].key
    ensures Sorted(s[..p] + [e] + s[p..])
  {
    var t := s[..p] + [e] + s[p..];
    assert forall i :: 0 <= i < p ==> t[i] == s[i] && t[i].key < e.key;
    assert forall i :: p < i < |t| ==> t[i] == s[i - 1] && e.key < t[i].key;
  }

  class Cell<V> {
    const key: int
    var val: V
    var next: Cell?<V>

    constructor (k: int, v: V)
      ensures key == k && val == v && next == null
    {
      key, val, next := k, v, null;
    }
  }

  function First<V>(cs: seq<Cell<V>>): Cell?<V> { if cs == [] then null else cs[0] }

  /** The cells are linked in order and the last one ends the chain. */
  ghost predicate Chained<V>(cs: seq<Cell<V>>)
    reads cs`next
  {
    && (forall i {:trigger cs[i].next} :: 0 <= i < |cs| - 1 ==> cs[i].next == cs[i + 1])
    && (cs != [] ==> cs[|cs| - 1].next == null)
  }

  ghost predicate Mirrors<V>(cs: seq<Cell<V>>, es: seq<Entry<V>>)
    reads cs`val
  {
    |cs| == |es| && forall i :: 0 <= i < |cs| ==> es[i].key == cs[i].key && es[i].val == cs[i].val
  }

  lemma MirrorInsert<V>(cs: seq<Cell<V>>, es: seq<Entry<V>>, p: nat, c: Cell<V>)
    requires Mirrors(cs, es) && p <= |cs|
    ensures Mirrors(cs[..p] + [c] + cs[p..], es[..p] + [Entry(c.key, c.val)] + es[p..])
  {
  }

  lemma MirrorSlices<V>(cs: seq<Cell<V>>, es: seq<Entry<V>>, half: nat)
    requires Mirrors(cs, es) && Sorted(es) && half <= |cs|
    ensures Mirrors(cs[..half], es[..half]) && Mirrors(cs[half..], es[half..])
    ensures Sorted(es[..half]) && Sorted(es[half..])
  {
  }

  lemma CellsDistinct<V>(cs: seq<Cell<V>>, es: seq<Entry<V>>)
    requires Mirrors(cs, es) && Sorted(es)
    ensures Distinct(cs)
  {
    assert forall i :: 0 <= i < |cs| ==> es[i].key == cs[i].key;
  }

  ghost predicate Distinct<V>(cs: seq<Cell<V>>) {
    forall i, j :: 0 <= i < j < |cs| ==> cs[i] != cs[j]
  }

  /** `last->m_next = nullptr`, and the rest of the chain. */
  method CutAfter<V>(last: Cell<V>, ghost cs: seq<Cell<V>>, ghost half: nat) returns (rest: Cell?<V>)
    requires Chained(cs) && Distinct(cs) && 0 < half < |cs| && last == cs[half - 1]
    modifies last`next
    ensures Chained(cs[..half]) && Chained(cs[half..]) && rest == First(cs[half..])
  {
    rest := last.next;
    last.next := null;
  }

  /** `list_node::insert_after`. */
  method LinkAfter<V>(c: Cell<V>, node: Cell<V>, ghost cs: seq<Cell<V>>, ghost p: nat)
    requires Chained(cs) && Distinct(cs) && p < |cs| && node == cs[p] && c !in cs
    modifies c`next, node`next
    ensures Chained(cs[..p + 1] + [c] + cs[p + 1..])
  {
    c.next := node.next;
    node.next := c;
    ghost var t := cs[..p + 1] + [c] + cs[p + 1..];
    forall i | 0 <= i < |t| - 1
      ensures t[i].next == t[i + 1]
    {
      if i > p + 1 {
        assert t[i] == cs[i - 1] && t[i + 1] == cs[i];
      }
    }
  }

  /** `newNode->m_next = m_root`. */
  method LinkBefore<V>(c: Cell<V>, root: Cell?<V>, ghost cs: seq<Cell<V>>)
    requires Chained(cs) && root == First(cs) && c !in cs
    modifies c`next
    ensures Chained(cs[..0] + [c] + cs[0..])
  {
    c.next := root;
    ghost var t := cs[..0] + [c] + cs[0..];
    forall i | 0 <= i < |t| - 1
      ensures t[i].next == t[i + 1]
    {
      if i > 0 {
        assert t[i] == cs[i - 1] && t[i + 1] == cs[i];
      }
    }
  }

  class LeafList<V> {
    var root: Cell?<V>
    var size: nat
    ghost var cells: seq<Cell<V>>
    ghost var entries: seq<Entry<V>>

    ghost predicate Valid()
      reads this, cells
    {
      && size == |cells|
      && root == First(cells) && Chained(cells) && Mirrors(cells, entries)
      && Sorted(entries)
    }

    /** An empty list; the source leaves `m_size` uninitialised, taken as zero. */
    constructor ()
      ensures Valid() && entries == [] && cells == []
    {
      root, size, cells, entries := null, 0, [], [];
    }

    /** Takes over a chain. */
    method Become(r: Cell?<V>, n: nat, ghost cs: seq<Cell<V>>, ghost es: seq<Entry<V>>)
      requires r == First(cs) && n == |cs| && Chained(cs) && Mirrors(cs, es) && Sorted(es)
      modifies this
      ensures Valid() && cells == cs && entries == es
    {
      root, size, cells, entries := r, n, cs, es;
    }

    /** The walk of `set`: the last cell whose key is not above `k`. */
    method Walk(k: int) returns (node: Cell<V>, ghost p: nat)
      requires Valid() && cells != [] && cells[0].key <= k
      ensures p < |cells| && node == cells[p] && cells[p].key <= k
      ensures p + 1 < |cells| ==> k < cells[p + 1].key
    {
      node, p := root, 0;
      while node.next != null && node.next.key <= k
        invariant p < |cells| && node == cells[p] && cells[p].key <= k
        decreases |cells| - p
      {
        node, p := node.next, p + 1;
      }
    }

    /** `leaf_list::set`. */
    method Set(k: int, v: V)
      requires Valid()
      modifies this, cells
      ensures Valid() && entries == Put(old(entries), k, v)
      ensures forall c :: c in cells ==> c in old(cells) || fresh(c)
    {
      if root == null || k < root.key {
        assert cells != [] ==> entries[0].key == cells[0].key;
        PutInserts(entries, 0, k, v);
        SetFirst(k, v);
      } else {
        SetInside(k, v);
      }
    }

    method SetFirst(k: int, v: V)
      requires Valid() && (cells != [] ==> k < entries[0].key)
      modifies this
      ensures Valid() && entries == old(entries)[..0] + [Entry(k, v)] + old(entries)[0..]
      ensures forall c :: c in cells ==> c in old(cells) || fresh(c)
    {
      var c := new Cell(k, v);
      LinkBefore(c, root, cells);
      MirrorInsert(cells, entries, 0, c);
      InsertKeepsSorted(entries, 0, Entry(k, v));
      Become(c, size + 1, cells[..0] + [c] + cells[0..], entries[..0] + [Entry(k, v)] + entries[0..]);
    }

    method SetInside(k: int, v: V)
      requires Valid() && cells != [] && cells[0].key <= k
      modifies this, cells
      ensures Valid() && entries == Put(old(entries), k, v)
      ensures forall c :: c in cells ==> c in old(cells) || fresh(c)
    {
      var node;
      ghost var p;
      node, p := Walk(k);
      assert forall i :: 0 <= i < p ==> entries[i].key < entries[p].key;
      if node.key == k {
        PutReplaces(entries, p, k, v);
        Replace(node, p, v);
      } else {
        assert p + 1 < |cells| ==> k < entries[p + 1].key;
        PutInserts(entries, p + 1, k, v);
        InsertAfter(node, p, k, v);
      }
    }

    method Replace(node: Cell<V>, ghost p: nat, v: V)
      requires Valid() && p < |cells| && node == cells[p]
      modifies this`entries, node
      ensures Valid() && cells == old(cells) && entries == old(entries)[p := Entry(node.key, v)]
    {
      CellsDistinct(cells, entries);
      node.val := v;
      entries := entries[p := Entry(node.key, v)];
    }

    method InsertAfter(node: Cell<V>, ghost p: nat, k: int, v: V)
      requires Valid() && p < |cells| && node == cells[p]
      requires cells[p].key < k && (p + 1 < |cells| ==> k < cells[p + 1].key)
      modifies this, node
      ensures Valid() && entries == old(entries)[..p + 1] + [Entry(k, v)] + old(entries)[p + 1..]
      ensures forall c :: c in cells ==> c in old(cells) || fresh(c)
    {
      CellsDistinct(cells, entries);
      var c := new Cell(k, v);
      LinkAfter(c, node, cells, p);
      MirrorInsert(cells, entries, p + 1, c);
      InsertKeepsSorted(entries, p + 1, Entry(k, v));
      Become(root, size + 1, cells[..p + 1] + [c] + cells[p + 1..], entries[..p + 1] + [Entry(k, v)] + entries[p + 1..]);
    }

    /** `list_node::skip` from the root, within the list. */
    method Skip(count: nat) returns (node: Cell<V>)
      requires Valid() && count < |cells|
      ensures node == cells[count]
    {
      node := root;
      var i := 0;
      while i < count
        invariant i <= count && node == cells[i]
      {
        assert cells[i].next == cells[i + 1];
        node := node.next;
        i := i + 1;
      }
    }

    /** `leaf_list::split`: the upper half moves to `dest`. */
    method Split(dest: LeafList<V>) returns (ok: bool)
      requires Valid() && dest.Valid() && dest != this && dest.cells == []
      modifies this, dest, cells
      ensures Valid() && dest.Valid() && (ok <==> |old(entries)| >= 2)
      ensures ok ==> entries == old(entries)[..|old(entries)| / 2] && cells == old(cells)[..|old(entries)| / 2]
      ensures ok ==> dest.entries == old(entries)[|old(entries)| / 2..] && dest.cells == old(cells)[|old(entries)| / 2..]
      ensures !ok ==> entries == old(entries) && cells == old(cells) && dest.entries == [] && dest.cells == []
    {
      var half := size / 2;
      if half == 0 {
        return false;
      }
      MoveUpper(dest, half);
      return true;
    }

    method MoveUpper(dest: LeafList<V>, half: nat)
      requires Valid() && dest.Valid() && dest != this && 0 < half < |cells|
      modifies this, dest, cells
      ensures Valid() && dest.Valid()
      ensures entries == old(entries)[..half] && cells == old(cells)[..half]
      ensures dest.entries == old(entries)[half..] && dest.cells == old(cells)[half..]
    {
      CellsDistinct(cells, entries);
      var last := Skip(half - 1);
      var rest := CutAfter(last, cells, half);
      MirrorSlices(cells, entries, half);
      dest.Become(rest, size - half, cells[half..], entries[half..]);
      Become(root, half, cells[..half], entries[..half]);
    }

    /** `leaf_list::get_val_ptr`. */
    method Get(k: int) returns (r: Option<V>)
      requires Valid()
      ensures r == Find(entries, k)
    {
      var node := root;
      ghost var i := 0;
      assert entries[0..] == entries;
      while node != null
        invariant 0 <= i <= |cells| && node == (if i < |cells| then cells[i] else null)
        invariant Find(entries, k) == Find(entries[i..], k)
        decreases |cells| - i
      {
        assert entries[i..][1..] == entries[i + 1..];
        if node.key == k {
          return Some(node.val);
        }
        node, i := node.next, i + 1;
      }
      return None;
    }

    /** `leaf_list::iterate`, with the visited pairs collected after `seen`. */
    method Iterate(seen: seq<Entry<V>>) returns (out: seq<Entry<V>>)
      requires Valid()
      ensures out == seen + entries
    {
      out := seen;
      var node := root;
      ghost var i := 0;
      while node != null
        invariant 0 <= i <= |cells| && node == (if i < |cells| then cells[i] else null)
        invariant out == seen + entries[..i]
        decreases |cells| - i
      {
        assert entries[..i + 1] == entries[..i] + [Entry(node.key, node.val)];
        out := out + [Entry(node.key, node.val)];
        node, i := node.next, i + 1;
      }
      assert entries[..i] == entries;
    }
  }
}
