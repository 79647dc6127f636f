/** The chain of leaves on the heap: each stores its own list, no two share a cell. */
module BptLeaves {
  import opened LeafLists
  import opened BptShape
  import opened BptChain
  import opened BptHeap

  /** Each leaf points to the next one in the chain. */
  ghost predicate LeafLinks<V>(chain: seq<Leaf<V>>)
    reads chain`next
  {
    && (forall i {:trigger chain[i].next} :: 0 <= i < |chain| - 1 ==> chain[i].next == chain[i + 1])
    && (chain != [] ==> chain[|chain| - 1].next == null)
  }

  /** Leaf `l` stores `es`, within a footprint. */
  ghost predicate Stores<V>(l: Leaf<V>, es: seq<Entry<V>>, lists: set<LeafList<V>>, cells: set<Cell<V>>)
    reads lists, cells
  {
    && l.list in lists && (forall c :: c in l.list.cells ==> c in cells)
    && l.list.Valid() && l.list.entries == es
  }

  /** The lists of two leaves share nothing. */
  ghost predicate Apart<V>(l: Leaf<V>, l': Leaf<V>)
    reads l.list, l'.list
  {
    l.list != l'.list && forall c :: c in l.list.cells ==> c !in l'.list.cells
  }

  ghost predicate AllStore<V>(chain: seq<Leaf<V>>, vals: seq<LeafVal<V>>, lists: set<LeafList<V>>, cells: set<Cell<V>>)
    reads lists, cells
  {
    |chain| == |vals| && forall i :: 0 <= i < |chain| ==> Stores(chain[i], vals[i].entries, lists, cells)
  }

  ghost predicate AllApart<V>(chain: seq<Leaf<V>>, lists: set<LeafList<V>>)
    reads lists
  {
    && (forall i :: 0 <= i < |chain| ==> chain[i].list in lists)
    && (forall i, j :: 0 <= i < j < |chain| ==> Apart(chain[i], chain[j]))
  }

  lemma ApartEither<V>(chain: seq<Leaf<V>>, lists: set<LeafList<V>>, i: nat, j: nat)
    requires AllApart(chain, lists) && i < |chain| && j < |chain| && i != j
    ensures Apart(chain[i], chain[j]) && Apart(chain[j], chain[i])
  {
    if i < j {
      assert Apart(chain[i], chain[j]);
    } else {
      assert Apart(chain[j], chain[i]);
    }
  }

  /** `m_list.set` on leaf `i`: the other leaves keep what they store. */
  method SetAt<V>(l: Leaf<V>, ghost i: nat, k: int, v: V, ghost chain: seq<Leaf<V>>, ghost vals: seq<LeafVal<V>>,
                  ghost lists: set<LeafList<V>>, ghost cells: set<Cell<V>>) returns (ghost cells': set<Cell<V>>)
    requires AllStore(chain, vals, lists, cells) && AllApart(chain, lists) && i < |chain| && l == chain[i]
    modifies l.list, l.list.cells
    ensures AllStore(chain, vals[i := vals[i].(entries := Put(vals[i].entries, k, v))], lists, cells') && AllApart(chain, lists)
    ensures l.list in lists && |l.list.entries| == l.list.size && l.list.entries == Put(vals[i].entries, k, v)
    ensures cells <= cells' && fresh(cells' - cells)
    ensures forall p :: 0 <= p < |l.list.cells| ==> l.list.cells[p] in old(l.list.cells) || fresh(l.list.cells[p])
  {
    assert Stores(l, vals[i].entries, lists, cells);
    forall j | 0 <= j < |chain| && j != i
      ensures Stores(chain[j], vals[j].entries, lists, cells) && Apart(l, chain[j]) && Apart(chain[j], l)
    {
      ApartEither(chain, lists, i, j);
    }
    l.list.Set(k, v);
    cells' := cells + set c | c in l.list.cells;
    forall j | 0 <= j < |chain| && j != i
      ensures Stores(chain[j], vals[j].entries, lists, cells') && Apart(l, chain[j]) && Apart(chain[j], l)
    {
      var other := chain[j].list;
      assert other.cells == old(other.cells);
      forall p | 0 <= p < |other.cells|
        ensures unchanged(other.cells[p])
      {
        assert other.cells[p] in old(other.cells);
      }
      assert other.Valid();
    }
  }

  lemma SplicedStores<V>(chain: seq<Leaf<V>>, vals: seq<LeafVal<V>>, i: nat, nl: Leaf<V>, lists: set<LeafList<V>>, cells: set<Cell<V>>)
    requires i < |chain| == |vals| && |vals[i].entries| >= 2
    requires forall j :: 0 <= j < |chain| && j != i ==> Stores(chain[j], vals[j].entries, lists, cells)
    requires Stores(chain[i], vals[i].entries[..|vals[i].entries| / 2], lists, cells)
    requires Stores(nl, vals[i].entries[|vals[i].entries| / 2..], lists, cells)
    ensures AllStore(Spliced(chain, i + 1, nl), SplitVals(vals, i, |vals[i].entries| / 2), lists, cells)
  {
    hide Stores;
    var t, w := Spliced(chain, i + 1, nl), SplitVals(vals, i, |vals[i].entries| / 2);
    SplitAt(vals, i, |vals[i].entries| / 2);
    forall j | 0 <= j < |t|
      ensures Stores(t[j], w[j].entries, lists, cells)
    {
      if j > i + 1 {
        assert t[j] == chain[j - 1] && w[j] == vals[j - 1];
      }
    }
  }

  lemma SplicedApart<V>(chain: seq<Leaf<V>>, i: nat, nl: Leaf<V>, lists: set<LeafList<V>>)
    requires AllApart(chain, lists) && i < |chain| && nl.list in lists
    requires forall j :: 0 <= j < |chain| ==> Apart(nl, chain[j]) && Apart(chain[j], nl)
    ensures AllApart(Spliced(chain, i + 1, nl), lists)
  {
    hide Apart;
    var t := Spliced(chain, i + 1, nl);
    forall a, b | 0 <= a < b < |t|
      ensures Apart(t[a], t[b])
    {
      var a', b' := if a <= i then a else a - 1, if b <= i then b else b - 1;
      assert a != i + 1 ==> t[a] == chain[a'];
      assert b != i + 1 ==> t[b] == chain[b'];
    }
  }

  lemma SplicedLinks<V>(chain: seq<Leaf<V>>, i: nat, nl: Leaf<V>)
    requires i < |chain| && chain[i].next == nl
    requires nl.next == if i + 1 < |chain| then chain[i + 1] else null
    requires forall j {:trigger chain[j].next} :: 0 <= j < |chain| - 1 && j != i ==> chain[j].next == chain[j + 1]
    requires i + 1 < |chain| ==> chain[|chain| - 1].next == null
    ensures LeafLinks(Spliced(chain, i + 1, nl))
  {
    var t := Spliced(chain, i + 1, nl);
    forall j | 0 <= j < |t| - 1
      ensures t[j].next == t[j + 1]
    {
      if j > i + 1 {
        assert t[j] == chain[j - 1] && t[j + 1] == chain[j];
      }
    }
  }

  /** A leaf that shares nothing with a changed list keeps what it stores. */
  ghost predicate Untouched<V>(l: Leaf<V>, es: seq<Entry<V>>, other: Leaf<V>, lists: set<LeafList<V>>, cells: set<Cell<V>>)
    reads lists, cells, l.list, other.list
  {
    Stores(l, es, lists, cells) && Apart(l, other) && Apart(other, l)
  }

  /** `leaf::split`, with what it leaves alone. */
  method SplitHere<V>(l: Leaf<V>, ghost i: nat, ghost chain: seq<Leaf<V>>, ghost vals: seq<LeafVal<V>>,
                      ghost lists: set<LeafList<V>>, ghost cells: set<Cell<V>>) returns (nl: Leaf<V>)
    requires i < |chain| == |vals| && l == chain[i] && |vals[i].entries| >= 2 && Stores(l, vals[i].entries, lists, cells)
    requires forall j :: 0 <= j < |chain| && j != i ==> Untouched(chain[j], vals[j].entries, l, lists, cells)
    requires LeafLinks(chain) && forall a, b :: 0 <= a < b < |chain| ==> chain[a] != chain[b]
    modifies l`next, l.list, l.list.cells
    ensures fresh(nl) && fresh(nl.list) && LeafLinks(Spliced(chain, i + 1, nl))
    ensures nl.list.root != null && nl.list.root.key == vals[i].entries[|vals[i].entries| / 2].key
    ensures Stores(l, vals[i].entries[..|vals[i].entries| / 2], lists, cells)
    ensures Stores(nl, vals[i].entries[|vals[i].entries| / 2..], lists + {nl.list}, cells)
    ensures Apart(l, nl) && Apart(nl, l)
    ensures forall j :: 0 <= j < |chain| && j != i ==>
              Untouched(chain[j], vals[j].entries, l, lists, cells) && Untouched(chain[j], vals[j].entries, nl, lists, cells)
  {
    hide Chained, Sorted, Spliced;
    CellsDistinct(l.list.cells, l.list.entries);
    ghost var cs := l.list.cells;
    var half := LeafSplit(l);
    nl := half;
    SplicedLinks(chain, i, nl);
    HalvesDisjoint(cs, |cs| / 2);
    forall j | 0 <= j < |chain| && j != i
      ensures Untouched(chain[j], vals[j].entries, l, lists, cells) && Untouched(chain[j], vals[j].entries, nl, lists, cells)
    {
      var other := chain[j].list;
      assert old(Untouched(chain[j], vals[j].entries, l, lists, cells));
      assert other.cells == old(other.cells);
      forall p | 0 <= p < |other.cells|
        ensures unchanged(other.cells[p])
      {
        assert other.cells[p] in old(other.cells);
      }
      assert other.Valid();
    }
  }

  /** The other leaves also stay apart from one another. */
  method SplitApart<V>(l: Leaf<V>, ghost i: nat, ghost chain: seq<Leaf<V>>, ghost vals: seq<LeafVal<V>>,
                       ghost lists: set<LeafList<V>>, ghost cells: set<Cell<V>>) returns (nl: Leaf<V>)
    requires i < |chain| == |vals| && l == chain[i] && |vals[i].entries| >= 2 && Stores(l, vals[i].entries, lists, cells)
    requires forall j :: 0 <= j < |chain| && j != i ==> Untouched(chain[j], vals[j].entries, l, lists, cells) && chain[j].list != l.list
    requires LeafLinks(chain) && forall a, b :: 0 <= a < b < |chain| ==> chain[a] != chain[b]
    requires forall a, b :: 0 <= a < b < |chain| && a != i && b != i ==> Apart(chain[a], chain[b])
    modifies l`next, l.list, l.list.cells
    ensures fresh(nl) && fresh(nl.list) && LeafLinks(Spliced(chain, i + 1, nl))
    ensures nl.list.root != null && nl.list.root.key == vals[i].entries[|vals[i].entries| / 2].key
    ensures Stores(l, vals[i].entries[..|vals[i].entries| / 2], lists, cells)
    ensures Stores(nl, vals[i].entries[|vals[i].entries| / 2..], lists + {nl.list}, cells)
    ensures Apart(l, nl) && Apart(nl, l)
    ensures forall j :: 0 <= j < |chain| && j != i ==>
              Untouched(chain[j], vals[j].entries, l, lists, cells) && Untouched(chain[j], vals[j].entries, nl, lists, cells)
    ensures forall a, b :: 0 <= a < b < |chain| && a != i && b != i ==> Apart(chain[a], chain[b])
  {
    hide Stores, LeafLinks, Spliced, Untouched, Apart;
    nl := SplitHere(l, i, chain, vals, lists, cells);
  }

  /** `leaf::split` on leaf `i`: a new leaf with the upper half comes next in the chain. */
  method SplitOff<V>(l: Leaf<V>, ghost i: nat, ghost chain: seq<Leaf<V>>, ghost vals: seq<LeafVal<V>>,
                     ghost lists: set<LeafList<V>>, ghost cells: set<Cell<V>>) returns (nl: Leaf<V>)
    requires AllStore(chain, vals, lists, cells) && AllApart(chain, lists) && LeafLinks(chain)
    requires i < |chain| && l == chain[i] && |vals[i].entries| >= 2
    requires forall a, b :: 0 <= a < b < |chain| ==> chain[a] != chain[b]
    modifies l`next, l.list, l.list.cells
    ensures fresh(nl) && fresh(nl.list)
    ensures nl.list.root != null && nl.list.root.key == vals[i].entries[|vals[i].entries| / 2].key
    ensures LeafLinks(Spliced(chain, i + 1, nl))
    ensures AllStore(Spliced(chain, i + 1, nl), SplitVals(vals, i, |vals[i].entries| / 2), lists + {nl.list}, cells)
    ensures AllApart(Spliced(chain, i + 1, nl), lists + {nl.list})
  {
    hide Stores, LeafLinks, AllStore, SplitVals, Spliced, Untouched, Apart, AllApart;
    OthersUntouched(l, i, chain, vals, lists, cells);
    nl := SplitApart(l, i, chain, vals, lists, cells);
    StillApart(l, i, chain, vals, nl, lists, cells);
    MoreLists(chain, vals, i, l, lists, nl.list, cells);
    SplicedStores(chain, vals, i, nl, lists + {nl.list}, cells);
  }

  lemma StillApart<V>(l: Leaf<V>, i: nat, chain: seq<Leaf<V>>, vals: seq<LeafVal<V>>, nl: Leaf<V>, lists: set<LeafList<V>>, cells: set<Cell<V>>)
    requires i < |chain| == |vals| && l == chain[i] && l.list in lists && Apart(l, nl) && Apart(nl, l)
    requires forall a, b :: 0 <= a < b < |chain| && a != i && b != i ==> Apart(chain[a], chain[b])
    requires forall j :: 0 <= j < |chain| && j != i ==>
               Untouched(chain[j], vals[j].entries, l, lists, cells) && Untouched(chain[j], vals[j].entries, nl, lists, cells)
    ensures AllApart(Spliced(chain, i + 1, nl), lists + {nl.list})
  {
    hide Stores, Apart;
    forall j | 0 <= j < |chain|
      ensures chain[j].list in lists && Apart(nl, chain[j]) && Apart(chain[j], nl)
    {
      if j != i {
        assert Untouched(chain[j], vals[j].entries, nl, lists, cells);
        StoredIn(chain[j], vals[j].entries, lists, cells);
      }
    }
    SplicedApart(chain, i, nl, lists + {nl.list});
  }

  lemma StoredIn<V>(l: Leaf<V>, es: seq<Entry<V>>, lists: set<LeafList<V>>, cells: set<Cell<V>>)
    requires Stores(l, es, lists, cells)
    ensures l.list in lists
  {
  }

  lemma OthersUntouched<V>(l: Leaf<V>, i: nat, chain: seq<Leaf<V>>, vals: seq<LeafVal<V>>, lists: set<LeafList<V>>, cells: set<Cell<V>>)
    requires AllStore(chain, vals, lists, cells) && AllApart(chain, lists) && i < |chain| && l == chain[i]
    ensures Stores(l, vals[i].entries, lists, cells) && l.list in lists && |chain| == |vals|
    ensures forall j :: 0 <= j < |chain| && j != i ==> chain[j].list != l.list
    ensures forall a, b :: 0 <= a < b < |chain| && a != i && b != i ==> Apart(chain[a], chain[b])
    ensures forall j :: 0 <= j < |chain| && j != i ==> Untouched(chain[j], vals[j].entries, l, lists, cells)
  {
    hide Stores;
    forall j | 0 <= j < |chain| && j != i
      ensures Untouched(chain[j], vals[j].entries, l, lists, cells) && chain[j].list != l.list
    {
      ApartEither(chain, lists, i, j);
    }
  }

  lemma MoreLists<V>(chain: seq<Leaf<V>>, vals: seq<LeafVal<V>>, i: nat, l: Leaf<V>, lists: set<LeafList<V>>, extra: LeafList<V>, cells: set<Cell<V>>)
    requires |chain| == |vals|
    requires forall j :: 0 <= j < |chain| && j != i ==> Untouched(chain[j], vals[j].entries, l, lists, cells)
    ensures forall j :: 0 <= j < |chain| && j != i ==> Stores(chain[j], vals[j].entries, lists + {extra}, cells)
    ensures forall es :: Stores(l, es, lists, cells) ==> Stores(l, es, lists + {extra}, cells)
  {
  }
}
