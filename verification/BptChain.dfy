/** The chain of leaves as values: consecutive key intervals, each holding exactly the part
    of the abstract map that falls into it. */
module BptChain {
  import opened Wrappers
  import opened LeafLists
  import opened BptShape

  datatype LeafVal<V> = LeafVal(lo: int, hi: int, entries: seq<Entry<V>>)

  function Look<V>(m: map<int, V>, k: int): Option<V> { if k in m then Some(m[k]) else None }

  ghost predicate LeafOK<V>(x: LeafVal<V>) {
    x.lo < x.hi && Sorted(x.entries) && AtLeast(x.entries, x.lo) && Below(x.entries, x.hi)
  }

  ghost predicate Agrees<V>(x: LeafVal<V>, m: map<int, V>) {
    forall k :: x.lo <= k < x.hi ==> Find(x.entries, k) == Look(m, k)
  }

  /** The intervals follow one another without gap from floor to ceiling. */
  ghost predicate Tiled<V>(vals: seq<LeafVal<V>>) {
    && |vals| >= 1 && vals[0].lo == FLOOR && vals[|vals| - 1].hi == CEILING
    && (forall i :: 0 <= i < |vals| - 1 ==> vals[i].hi == vals[i + 1].lo)
    && (forall i, j :: 0 <= i < j < |vals| ==> vals[i].hi <= vals[j].lo)
  }

  ghost predicate ChainOK<V>(vals: seq<LeafVal<V>>, m: map<int, V>) {
    && Tiled(vals)
    && (forall i :: 0 <= i < |vals| ==> LeafOK(vals[i]) && Agrees(vals[i], m))
  }

  lemma ChainPut<V>(vals: seq<LeafVal<V>>, m: map<int, V>, i: nat, k: int, v: V)
    requires ChainOK(vals, m) && i < |vals| && vals[i].lo <= k < vals[i].hi
    ensures ChainOK(vals[i := vals[i].(entries := Put(vals[i].entries, k, v))], m[k := v])
  {
    var x := vals[i];
    var y := x.(entries := Put(x.entries, k, v));
    PutSorted(x.entries, k, v);
    PutBounds(x.entries, k, v, x.lo, x.hi);
    forall q | y.lo <= q < y.hi
      ensures Find(y.entries, q) == Look(m[k := v], q)
    {
      PutFind(x.entries, k, v, q);
    }
    forall j | 0 <= j < |vals| && j != i
      ensures Agrees(vals[j], m[k := v])
    {
      OtherLeaf(vals, i, j, k);
    }
  }

  lemma OtherLeaf<V>(vals: seq<LeafVal<V>>, i: nat, j: nat, k: int)
    requires Tiled(vals) && i < |vals| && j < |vals| && i != j && vals[i].lo <= k < vals[i].hi
    ensures !(vals[j].lo <= k < vals[j].hi)
  {
  }

  function LowHalf<V>(x: LeafVal<V>, half: nat): LeafVal<V>
    requires half < |x.entries|
  {
    LeafVal(x.lo, x.entries[half].key, x.entries[..half])
  }

  function HighHalf<V>(x: LeafVal<V>, half: nat): LeafVal<V>
    requires half < |x.entries|
  {
    LeafVal(x.entries[half].key, x.hi, x.entries[half..])
  }

  lemma HalvesOK<V>(x: LeafVal<V>, half: nat, m: map<int, V>)
    requires LeafOK(x) && Agrees(x, m) && 0 < half < |x.entries|
    ensures LeafOK(LowHalf(x, half)) && LeafOK(HighHalf(x, half))
    ensures Agrees(LowHalf(x, half), m) && Agrees(HighHalf(x, half), m)
  {
    var e, mk := x.entries, x.entries[half].key;
    assert e[0].key < mk;
    forall k | x.lo <= k < x.hi
      ensures Find(e, k) == Find(if k < mk then e[..half] else e[half..], k)
    {
      assert e == e[..half] + e[half..];
      FindConcat(e[..half], e[half..], k);
      if k < mk {
        FindOutside(e[half..], k);
      } else {
        FindOutside(e[..half], k);
      }
    }
  }

  function SplitVals<V>(vals: seq<LeafVal<V>>, i: nat, half: nat): seq<LeafVal<V>>
    requires i < |vals| && half < |vals[i].entries|
  {
    vals[..i] + [LowHalf(vals[i], half)] + [HighHalf(vals[i], half)] + vals[i + 1..]
  }

  lemma SplitAt<V>(vals: seq<LeafVal<V>>, i: nat, half: nat)
    requires i < |vals| && half < |vals[i].entries|
    ensures |SplitVals(vals, i, half)| == |vals| + 1
    ensures forall j :: 0 <= j < i ==> SplitVals(vals, i, half)[j] == vals[j]
    ensures SplitVals(vals, i, half)[i] == LowHalf(vals[i], half)
    ensures SplitVals(vals, i, half)[i + 1] == HighHalf(vals[i], half)
    ensures forall j :: i + 1 < j <= |vals| ==> SplitVals(vals, i, half)[j] == vals[j - 1]
  {
  }

  lemma ChainSplit<V>(vals: seq<LeafVal<V>>, m: map<int, V>, i: nat, half: nat)
    requires ChainOK(vals, m) && i < |vals| && 0 < half < |vals[i].entries|
    ensures ChainOK(SplitVals(vals, i, half), m)
  {
    HalvesOK(vals[i], half, m);
    SplitAt(vals, i, half);
    TiledSplit(vals, i, half);
  }

  lemma TiledSplit<V>(vals: seq<LeafVal<V>>, i: nat, half: nat)
    requires Tiled(vals) && i < |vals| && 0 < half < |vals[i].entries|
    requires vals[i].lo < vals[i].entries[half].key < vals[i].hi
    requires forall j :: 0 <= j < |vals| ==> vals[j].lo < vals[j].hi
    ensures Tiled(SplitVals(vals, i, half))
  {
    SplitAt(vals, i, half);
    var w := SplitVals(vals, i, half);
    forall a | 0 <= a < |w| - 1
      ensures w[a].hi == w[a + 1].lo
    {
      AdjacentAfterSplit(vals, i, half, a);
    }
    forall a, b | 0 <= a < b < |w|
      ensures w[a].hi <= w[b].lo
    {
      OrderedAfterSplit(vals, i, half, a, b);
    }
  }

  lemma AdjacentAfterSplit<V>(vals: seq<LeafVal<V>>, i: nat, half: nat, a: nat)
    requires Tiled(vals) && i < |vals| && half < |vals[i].entries| && a < |vals|
    ensures SplitVals(vals, i, half)[a].hi == SplitVals(vals, i, half)[a + 1].lo
  {
    SplitAt(vals, i, half);
    if a < i {
      assert vals[a].hi == vals[a + 1].lo;
    } else if a > i {
      assert vals[a - 1].hi == vals[a - 1 + 1].lo || a - 1 == i;
    }
  }

  lemma OrderedAfterSplit<V>(vals: seq<LeafVal<V>>, i: nat, half: nat, a: nat, b: nat)
    requires Tiled(vals) && i < |vals| && half < |vals[i].entries| && a < b <= |vals|
    requires vals[i].lo < vals[i].entries[half].key < vals[i].hi
    requires forall j :: 0 <= j < |vals| ==> vals[j].lo < vals[j].hi
    ensures SplitVals(vals, i, half)[a].hi <= SplitVals(vals, i, half)[b].lo
  {
    SplitAt(vals, i, half);
    var w := SplitVals(vals, i, half);
    var a', b' := if a <= i then a else a - 1, if b <= i then b else b - 1;
    assert w[a].hi <= vals[a'].hi && vals[b'].lo <= w[b].lo;
  }

  /** All pairs, in chain order: what `iterate` visits. */
  function Flatten<V>(vals: seq<LeafVal<V>>): seq<Entry<V>> {
    if vals == [] then [] else vals[0].entries + Flatten(vals[1..])
  }

  /** A stretch of consecutive leaves from `vals[0].lo` up to `hi`. */
  ghost predicate Stretch<V>(vals: seq<LeafVal<V>>, lo: int, hi: int) {
    if vals == [] then lo == hi
    else vals[0].lo == lo && LeafOK(vals[0]) && Stretch(vals[1..], vals[0].hi, hi)
  }

  lemma {:induction false} TiledIsStretch<V>(vals: seq<LeafVal<V>>, i: nat)
    requires Tiled(vals) && i < |vals| && forall j :: 0 <= j < |vals| ==> LeafOK(vals[j])
    ensures Stretch(vals[i..], vals[i].lo, CEILING)
    decreases |vals| - i
  {
    assert vals[i..][1..] == vals[i + 1..];
    if i + 1 < |vals| {
      TiledIsStretch(vals, i + 1);
    } else {
      assert vals[i + 1..] == [];
    }
  }

  lemma {:induction false} StretchOrders<V>(vals: seq<LeafVal<V>>, lo: int, hi: int)
    requires Stretch(vals, lo, hi)
    ensures lo <= hi && AtLeast(Flatten(vals), lo) && Below(Flatten(vals), hi) && Sorted(Flatten(vals))
  {
    if vals != [] {
      StretchOrders(vals[1..], vals[0].hi, hi);
    }
  }

  lemma {:induction false} StretchFinds<V>(vals: seq<LeafVal<V>>, lo: int, hi: int, m: map<int, V>, k: int)
    requires Stretch(vals, lo, hi) && lo <= k < hi
    requires forall j :: 0 <= j < |vals| ==> Agrees(vals[j], m)
    ensures Find(Flatten(vals), k) == Look(m, k)
  {
    var e, rest := vals[0].entries, Flatten(vals[1..]);
    FindConcat(e, rest, k);
    StretchOrders(vals[1..], vals[0].hi, hi);
    if k < vals[0].hi {
      FindOutside(rest, k);
      assert Agrees(vals[0], m);
    } else {
      FindOutside(e, k);
      forall j | 0 <= j < |vals[1..]|
        ensures Agrees(vals[1..][j], m)
      {
        assert vals[1..][j] == vals[j + 1];
      }
      StretchFinds(vals[1..], vals[0].hi, hi, m, k);
    }
  }

  lemma {:induction false} FindSome<V>(s: seq<Entry<V>>, k: int) returns (i: nat)
    requires Find(s, k).Some?
    ensures i < |s| && s[i] == Entry(k, Find(s, k).value)
  {
    if s[0].key == k {
      i := 0;
    } else {
      var j := FindSome(s[1..], k);
      i := j + 1;
    }
  }

  /** The visited pairs are exactly the abstract map, in strictly ascending key order. */
  lemma FlattenIsMap<V>(vals: seq<LeafVal<V>>, m: map<int, V>)
    requires ChainOK(vals, m) && forall k :: k in m ==> FLOOR <= k < CEILING
    ensures Sorted(Flatten(vals))
    ensures forall i :: 0 <= i < |Flatten(vals)| ==> Flatten(vals)[i].key in m && m[Flatten(vals)[i].key] == Flatten(vals)[i].val
    ensures forall k :: k in m ==> Entry(k, m[k]) in Flatten(vals)
  {
    assert vals[0..] == vals;
    TiledIsStretch(vals, 0);
    StretchOrders(vals, FLOOR, CEILING);
    var s := Flatten(vals);
    forall i | 0 <= i < |s|
      ensures s[i].key in m && m[s[i].key] == s[i].val
    {
      FindAt(s, i);
      StretchFinds(vals, FLOOR, CEILING, m, s[i].key);
    }
    forall k | k in m
      ensures Entry(k, m[k]) in s
    {
      StretchFinds(vals, FLOOR, CEILING, m, k);
      var i := FindSome(s, k);
    }
  }
}
