/** The bounded queue of the logging thread pool: a ring of slots with one slot kept free. */
module CircularQueue {

  /** A push into a queue of capacity `cap`: the oldest item makes room. */
  function Pushed<T>(items: seq<T>, cap: nat, x: T): (r: seq<T>)
    requires |items| <= cap
    ensures |r| <= cap
  {
    if |items| == cap then (items + [x])[1..] else items + [x]
  }

  /** `(i + 1) % n` for an index. */
  lemma NextIndex(i: nat, n: nat)
    requires i < n
    ensures (i + 1) % n == if i + 1 == n then 0 else i + 1
  {
  }

  class CircularQ<T(0)> {
    const maxItems: nat
    const v: array<T>
    var head: nat
    var tail: nat
    var overruns: nat

    ghost predicate Valid()
      reads this
    {
      v.Length == maxItems && head < maxItems && tail < maxItems
    }

    /** How many items the queue can hold. */
    ghost function Capacity(): int { maxItems - 1 }

    ghost function Count(): nat
      requires Valid()
      reads this
    {
      if head <= tail then tail - head else tail + maxItems - head
    }

    /** The items from oldest to newest. */
    ghost function Items(): (s: seq<T>)
      requires Valid()
      reads this, v
      ensures |s| == Count() <= Capacity()
    {
      if head <= tail then v[head..tail] else v[head..] + v[..tail]
    }

    constructor (max: nat)
      ensures Valid() && Capacity() == max && Items() == [] && overruns == 0 && fresh(v)
    {
      maxItems := max + 1;
      v := new T[max + 1];
      head, tail, overruns := 0, 0, 0;
    }

    method PushBack(x: T)
      requires Valid()
      modifies this`head, this`tail, this`overruns, v
      ensures Valid() && Items() == Pushed(old(Items()), Capacity(), x)
      ensures overruns == old(overruns) + if old(Count()) == Capacity() then 1 else 0
    {
      NextIndex(tail, maxItems);
      NextIndex(head, maxItems);
      ghost var before := Items();
      v[tail] := x;
      tail := (tail + 1) % maxItems;
      if tail == head {
        head := (head + 1) % maxItems;
        overruns := overruns + 1;
      }
      assert Items() == Pushed(before, Capacity(), x);
    }

    /** Undefined on an empty queue, as in the source. */
    method PopFront() returns (x: T)
      requires Valid() && Count() > 0
      modifies this`head
      ensures Valid() && old(Items()) == [x] + Items()
    {
      NextIndex(head, maxItems);
      x := v[head];
      head := (head + 1) % maxItems;
    }

    method Empty() returns (b: bool)
      requires Valid()
      ensures b <==> Items() == []
    {
      b := tail == head;
    }

    method Full() returns (b: bool)
      requires Valid()
      ensures b <==> |Items()| == Capacity()
    {
      NextIndex(tail, maxItems);
      b := (tail + 1) % maxItems == head;
    }
  }
}
