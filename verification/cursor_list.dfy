/**
 * The value/cursor variant of the doubly-linked list (collections/list.h).
 *
 * A node (`ListIter` in C++) stores a copy of its element and the links to
 * its neighbours, and is at the same time the cursor handed out to callers.
 * The list keeps only its head. Lookups that fail answer a distinguished
 * sentinel cursor, `empty`, which is never a node of any chain.
 */
module CursorList {
  import opened ListSpec

  /** A node of the chain, and the cursor that designates it. */
  class Iter<T(0)> {
    const item: T
    /** True only for the sentinel cursor. */
    const isEmpty: bool
    var next: Iter?<T>
    var prev: Iter?<T>

    /** A detached node holding a copy of `item`. */
    constructor (item: T)
      ensures this.item == item && !isEmpty
      ensures next == null && prev == null
    {
      this.item := item;
      isEmpty := false;
      next := null;
      prev := null;
    }

    /** The sentinel: its element is default-constructed, as `ListIter()` does. */
    constructor Sentinel()
      ensures isEmpty && next == null && prev == null
    {
      isEmpty := true;
      next := null;
      prev := null;
    }

    /** The element this cursor designates (`value()`). */
    function Value(): (v: T)
      ensures v == item
    {
      item
    }
  }

  /** The elements carried by a sequence of nodes, in order. */
  ghost function Items<T(0)>(ns: seq<Iter<T>>): (s: seq<T>)
  {
    seq(|ns|, i requires 0 <= i < |ns| => ns[i].item)
  }

  class List<T(0,==)> {
    /** `mFirst`: the head of the chain, null when the list is empty. */
    var first: Iter?<T>
    /** The sentinel cursor that failed lookups answer. */
    const empty: Iter<T>
    /** The chain in forward order. */
    ghost var nodes: seq<Iter<T>>
    ghost var Repr: set<object>

    /**
     * The chain invariant: `first` is the first node; each node's `next`
     * and `prev` are its neighbours in `nodes`, with null past either end;
     * no node occurs twice, so the chain is acyclic; and neither the nodes
     * nor anything else the list may change is the sentinel, which the list
     * only ever hands out.
     */
    ghost predicate Valid()
      reads this, Repr
      ensures Valid() ==> this in Repr
    {
      && this in Repr
      && empty.isEmpty && empty !in Repr
      && first == (if nodes == [] then null else nodes[0])
      && (forall i :: 0 <= i < |nodes| ==> nodes[i] in Repr && !nodes[i].isEmpty)
      && (forall i {:trigger nodes[i].next} :: 0 <= i < |nodes| ==>
            nodes[i].next == if i + 1 < |nodes| then nodes[i + 1] else null)
      && (forall i {:trigger nodes[i].prev} :: 0 <= i < |nodes| ==>
            nodes[i].prev == if i == 0 then null else nodes[i - 1])
      && Distinct(nodes)
    }

    /** The elements of the list, head first. */
    ghost function Elems(): seq<T>
      reads this
    {
      Items(nodes)
    }

    /** An empty list that answers `empty` for failed lookups. */
    constructor (empty: Iter<T>)
      requires empty.isEmpty
      ensures Valid() && fresh(Repr)
      ensures this.empty == empty && Elems() == []
    {
      this.empty := empty;
      first := null;
      nodes := [];
      Repr := {this};
    }

    /** `add`: append `x` after the current tail. */
    method Add(x: T)
      requires Valid()
      modifies Repr
      ensures Valid() && fresh(Repr - old(Repr))
      ensures Elems() == old(Elems()) + [x]
      ensures |nodes| == |old(nodes)| + 1 && nodes[..|old(nodes)|] == old(nodes)
      ensures old(first) == null ==> first == nodes[0] && first.item == x
      ensures old(first) != null ==> first == old(first)
    {
      if first == null {
        var n := new Iter(x);
        first := n;
        nodes := [n];
        Repr := Repr + {n};
        return;
      }

      var lastItem := GetLastItemPtr();
      var n := new Iter(x);
      n.prev := lastItem;
      lastItem.next := n;
      nodes := nodes + [n];
      Repr := Repr + {n};
    }

    /**
     * `insertBefore`: splice `x` in just before the node `c`. On an empty
     * list `x` becomes the only element whatever `c` is; when `c` is not a
     * node of the chain (the sentinel, a stale cursor) nothing changes.
     */
    method InsertBefore(x: T, c: Iter?<T>)
      requires Valid()
      modifies Repr
      ensures Valid() && fresh(Repr - old(Repr))
      ensures old(nodes) == [] ==> Elems() == [x]
      ensures old(nodes) != [] && c !in old(nodes) ==> nodes == old(nodes) && first == old(first)
      ensures old(nodes) != [] && c in old(nodes) ==>
                var k := Find(old(nodes), c);
                Elems() == old(Elems())[..k] + [x] + old(Elems())[k..] &&
                |nodes| == |old(nodes)| + 1 && nodes == old(nodes)[..k] + [nodes[k]] + old(nodes)[k..] &&
                (k == 0 <==> first != old(first))
    {
      var current := first;
      if current == null {
        var n := new Iter(x);
        first := n;
        nodes := [n];
        Repr := Repr + {n};
        return;
      }

      // The source assigns `prev = current->mPrev` here, which leaves `prev`
      // two nodes behind the target; the evident intent, modelled, is the
      // node just before it.
      var prev: Iter?<T> := null;
      ghost var k := 0;
      while current != null && current != c
        invariant 0 <= k <= |nodes|
        invariant current == if k < |nodes| then nodes[k] else null
        invariant prev == if k == 0 then null else nodes[k - 1]
        invariant forall j :: 0 <= j < k ==> nodes[j] != c
        decreases |nodes| - k
      {
        prev := current;
        current := current.next;
        k := k + 1;
      }

      if current == null {
        return;
      }

      assert Find(nodes, c) == k;
      ghost var was := nodes;
      var n := LinkBefore(x, current, prev, k);
      SpliceElems(was, k, n);
    }

    /**
     * The splice that ends `insertBefore`: a new node holding `x` goes
     * between `prev` and `current`, the nodes at k - 1 and k, and becomes
     * the head when `current` was.
     */
    method LinkBefore(x: T, current: Iter<T>, prev: Iter?<T>, ghost k: nat) returns (newItem: Iter<T>)
      requires Valid() && k < |nodes| && current == nodes[k]
      requires prev == if k == 0 then null else nodes[k - 1]
      modifies Repr
      ensures Valid() && fresh(newItem) && Repr == old(Repr) + {newItem}
      ensures nodes == old(nodes)[..k] + [newItem] + old(nodes)[k..]
      ensures newItem.item == x
      ensures first == if k == 0 then newItem else old(first)
    {
      newItem := new Iter(x);
      newItem.next := current;
      newItem.prev := prev;
      current.prev := newItem;
      if newItem.prev != null {
        newItem.prev.next := newItem;
      }
      if newItem.next == first {
        first := newItem;
      }
      ghost var was := nodes;
      nodes := nodes[..k] + [newItem] + nodes[k..];
      Repr := Repr + {newItem};
      DistinctInsert(was, k, newItem);
      forall i | 0 <= i < |nodes|
        ensures nodes[i].next == if i + 1 < |nodes| then nodes[i + 1] else null
        ensures nodes[i].prev == if i == 0 then null else nodes[i - 1]
      {
        if i < k {
          assert nodes[i] == was[i];
        } else if i > k {
          assert nodes[i] == was[i - 1];
        }
      }
    }

    /**
     * `insertAfter`: splice `x` in just after the node `c`, relinking the
     * old successor's `prev` to the new node. On an empty list `x` becomes
     * the only element whatever `c` is; when `c` is not a node of the chain
     * nothing changes.
     */
    method InsertAfter(x: T, c: Iter?<T>)
      requires Valid()
      modifies Repr
      ensures Valid() && fresh(Repr - old(Repr))
      ensures old(nodes) == [] ==> Elems() == [x]
      ensures old(nodes) != [] && c !in old(nodes) ==> nodes == old(nodes) && first == old(first)
      ensures old(nodes) != [] && c in old(nodes) ==>
                var k := Find(old(nodes), c);
                Elems() == old(Elems())[..k + 1] + [x] + old(Elems())[k + 1..] &&
                |nodes| == |old(nodes)| + 1 && nodes == old(nodes)[..k + 1] + [nodes[k + 1]] + old(nodes)[k + 1..] &&
                first == old(first)
    {
      var current := first;
      if current == null {
        var n := new Iter(x);
        first := n;
        nodes := [n];
        Repr := Repr + {n};
        return;
      }

      // The source also tracks a `prev` here; it is only read on the
      // not-found path, to link a node that never enters the chain.
      ghost var k := 0;
      while current != null && current != c
        invariant 0 <= k <= |nodes|
        invariant current == if k < |nodes| then nodes[k] else null
        invariant forall j :: 0 <= j < k ==> nodes[j] != c
        decreases |nodes| - k
      {
        current := current.next;
        k := k + 1;
      }

      if current == null {
        return;
      }

      assert Find(nodes, c) == k;
      ghost var was := nodes;
      var n := LinkAfter(x, current, k);
      SpliceElems(was, k + 1, n);
    }

    /**
     * The splice that ends `insertAfter`: a new node holding `x` goes
     * between `current`, the node at k, and its successor.
     */
    method LinkAfter(x: T, current: Iter<T>, ghost k: nat) returns (newItem: Iter<T>)
      requires Valid() && k < |nodes| && current == nodes[k]
      modifies Repr
      ensures Valid() && fresh(newItem) && Repr == old(Repr) + {newItem}
      ensures nodes == old(nodes)[..k + 1] + [newItem] + old(nodes)[k + 1..]
      ensures newItem.item == x && first == old(first)
    {
      assert current.next == if k + 1 < |nodes| then nodes[k + 1] else null;
      newItem := new Iter(x);
      assert newItem !in Repr;
      newItem.prev := current;
      newItem.next := current.next;
      current.next := newItem;
      if newItem.next != null {
        newItem.next.prev := newItem;
      }
      ghost var was := nodes;
      nodes := nodes[..k + 1] + [newItem] + nodes[k + 1..];
      Repr := Repr + {newItem};
      DistinctInsert(was, k + 1, newItem);
      forall i | 0 <= i < |nodes|
        ensures nodes[i].next == if i + 1 < |nodes| then nodes[i + 1] else null
        ensures nodes[i].prev == if i == 0 then null else nodes[i - 1]
      {
        if i <= k {
          assert nodes[i] == was[i];
        } else if i > k + 1 {
          assert nodes[i] == was[i - 1];
        }
      }
    }

    /**
     * `remove`: unlink the first node whose element equals `x`, joining its
     * neighbours; nothing changes when no element equals `x`.
     */
    method Remove(x: T)
      requires Valid()
      modifies Repr
      ensures Valid() && Repr == old(Repr)
      ensures Elems() == RemoveFirst(old(Elems()), x)
      ensures x !in old(Elems()) ==> nodes == old(nodes) && first == old(first)
      ensures x in old(Elems()) ==>
                var k := Find(old(Elems()), x);
                nodes == old(nodes)[..k] + old(nodes)[k + 1..]
    {
      var current := first;
      ghost var k := 0;
      while current != null && current.item != x
        invariant 0 <= k <= |nodes|
        invariant current == if k < |nodes| then nodes[k] else null
        invariant forall j :: 0 <= j < k ==> Elems()[j] != x
        decreases |nodes| - k
      {
        current := current.next;
        k := k + 1;
      }

      if current == null {
        FindAbsent(Elems(), x);
        return;
      }

      assert Elems()[k] == x;
      assert Find(Elems(), x) == k;
      ghost var was := nodes;
      Unlink(current, k);
      UnspliceElems(was, k);
    }

    /**
     * The unlinking that ends `remove`: the node at k leaves the chain and
     * its neighbours are joined; when it was the head, its successor
     * becomes the head.
     */
    method Unlink(current: Iter<T>, ghost k: nat)
      requires Valid() && k < |nodes| && current == nodes[k]
      modifies Repr
      ensures Valid() && Repr == old(Repr)
      ensures nodes == old(nodes)[..k] + old(nodes)[k + 1..]
    {
      assert current.prev == if k == 0 then null else nodes[k - 1];
      assert current.next == if k + 1 < |nodes| then nodes[k + 1] else null;
      if current.prev != null {
        current.prev.next := current.next;
      }
      if current.next != null {
        current.next.prev := current.prev;
      }
      // The source never moves `mFirst`, so removing the head leaves it at
      // the deleted node; the evident intent, modelled, advances it.
      if current == first {
        first := current.next;
      }
      ghost var was := nodes;
      nodes := nodes[..k] + nodes[k + 1..];
      forall i | 0 <= i < |nodes|
        ensures nodes[i].next == if i + 1 < |nodes| then nodes[i + 1] else null
        ensures nodes[i].prev == if i == 0 then null else nodes[i - 1]
      {
        if i < k {
          assert nodes[i] == was[i];
        } else {
          assert nodes[i] == was[i + 1];
        }
      }
    }

    /** `size`: the number of nodes, counted in a `uint8_t` that wraps at 256. */
    method Size() returns (n: Byte)
      requires Valid()
      ensures n == |Elems()| % 0x100
      ensures |Elems()| < 0x100 ==> n == |Elems()|
    {
      n := 0;
      var current := first;
      ghost var k := 0;
      while current != null
        invariant 0 <= k <= |nodes|
        invariant current == if k < |nodes| then nodes[k] else null
        invariant n == k % 0x100
        decreases |nodes| - k
      {
        current := current.next;
        n := (n + 1) % 0x100;
        k := k + 1;
      }
    }

    /** `get`: the cursor at position `index`, or the sentinel past the end. */
    method Get(index: Byte) returns (c: Iter<T>)
      requires Valid()
      ensures index < |nodes| ==> c == nodes[index] && c.item == Elems()[index]
      ensures index >= |nodes| ==> c == empty
      ensures c == empty <==> index >= |Elems()|
    {
      var current := first;
      var i := index;
      ghost var k := 0;
      // `index-- > 0`: the decrement happens only when `current` is not
      // null, and its wrap-around at zero ends the loop without being read.
      while current != null && i > 0
        invariant 0 <= k <= |nodes| && k + i == index
        invariant current == if k < |nodes| then nodes[k] else null
        decreases i
      {
        i := i - 1;
        current := current.next;
        k := k + 1;
      }

      if current == null {
        return empty;
      }
      return current;
    }

    /** `first`: the head cursor, or the sentinel when the list is empty. */
    method First() returns (c: Iter<T>)
      requires Valid()
      ensures c == empty <==> Elems() == []
      ensures c != empty ==> c == nodes[0] && c.prev == null && c.item == Elems()[0]
    {
      if first == null {
        return empty;
      }
      return first;
    }

    /** `last`: the tail cursor, or the sentinel when the list is empty. */
    method Last() returns (c: Iter<T>)
      requires Valid()
      ensures c == empty <==> Elems() == []
      ensures c != empty ==> c == nodes[|nodes| - 1] && c.next == null && c.item == Elems()[|Elems()| - 1]
    {
      var lastItem := GetLastItemPtr();
      if lastItem == null {
        return empty;
      }
      return lastItem;
    }

    /**
     * `getLastItemPtr`: walk to the tail, the one node whose `next` is null;
     * null when the list is empty.
     */
    method GetLastItemPtr() returns (r: Iter?<T>)
      requires Valid()
      ensures r == null <==> nodes == []
      ensures r != null ==> r == nodes[|nodes| - 1] && r.next == null
    {
      var current := first;
      if current == null {
        return null;
      }

      ghost var k := 0;
      while current.next != null
        invariant 0 <= k < |nodes| && current == nodes[k]
        decreases |nodes| - k
      {
        current := current.next;
        k := k + 1;
      }
      // The source tests `current` against null once more here; after the
      // loop it cannot be null, so that branch is left out.
      return current;
    }

    // The two members below keep the source's defective paths exactly as
    // written. The rest of the model uses the corrected InsertBefore and
    // Remove above; these exist to state what the source actually does.
    // Neither restores the chain invariant, so `nodes` and `Repr` are left
    // describing the chain as it was before the call.

    /**
     * `insertBefore` as written: the search loop sets `prev` to the
     * predecessor of `current` before stepping, so when the target is found
     * at position k >= 1 `prev` is the node at k - 2 (null when k == 1).
     * For k >= 2 the new node is linked after that node and the node at
     * k - 1 drops out of forward traversal; for k == 1 the new node is
     * reachable only backwards from the target.
     */
    method InsertBeforeAsWritten(x: T, c: Iter?<T>)
      requires Valid()
      modifies Repr
      ensures old(nodes) == [] ==> first != null && first.item == x && first.next == null && first.prev == null
      ensures old(nodes) != [] && c !in old(nodes) ==>
                first == old(first) &&
                (forall i :: 0 <= i < |old(nodes)| ==> old(nodes)[i].next == old(nodes[i].next)) &&
                (forall i :: 0 <= i < |old(nodes)| ==> old(nodes)[i].prev == old(nodes[i].prev))
      ensures old(nodes) != [] && c in old(nodes) && Find(old(nodes), c) == 0 ==>
                first != null && first.item == x && first.prev == null &&
                first.next == old(first) && old(first).prev == first &&
                (forall i :: 0 <= i < |old(nodes)| ==> old(nodes)[i].next == old(nodes[i].next)) &&
                (forall i :: 0 < i < |old(nodes)| ==> old(nodes)[i].prev == old(nodes[i].prev))
      ensures old(nodes) != [] && c in old(nodes) && Find(old(nodes), c) == 1 ==>
                first == old(first) &&
                (forall i :: 0 <= i < |old(nodes)| ==> old(nodes)[i].next == old(nodes[i].next)) &&
                (forall i :: 0 <= i < |old(nodes)| && i != 1 ==> old(nodes)[i].prev == old(nodes[i].prev)) &&
                old(nodes)[1].prev != null && old(nodes)[1].prev.item == x &&
                old(nodes)[1].prev.prev == null && old(nodes)[1].prev.next == old(nodes)[1]
      ensures old(nodes) != [] && c in old(nodes) && Find(old(nodes), c) >= 2 ==>
                var k := Find(old(nodes), c);
                var n := old(nodes)[k - 2].next;
                first == old(first) &&
                n != null && n.item == x && n.prev == old(nodes)[k - 2] && n.next == old(nodes)[k] &&
                old(nodes)[k].prev == n &&
                (forall i :: 0 <= i < |old(nodes)| && i != k - 2 ==> old(nodes)[i].next == old(nodes[i].next)) &&
                (forall i :: 0 <= i < |old(nodes)| && i != k ==> old(nodes)[i].prev == old(nodes[i].prev))
    {
      var newItem := new Iter(x);

      var current := first;
      if current == null {
        first := new Iter(x);
        return;
      }

      var prev: Iter?<T> := null;
      ghost var k := 0;
      while current != null && current != c
        invariant 0 <= k <= |nodes|
        invariant current == if k < |nodes| then nodes[k] else null
        invariant prev == if k < 2 then null else nodes[k - 2]
        invariant forall j :: 0 <= j < k ==> nodes[j] != c
        decreases |nodes| - k
      {
        prev := current.prev;
        current := current.next;
        k := k + 1;
      }

      if current == null {
        newItem.prev := prev;
        return;
      }

      assert Find(nodes, c) == k;
      newItem.next := current;
      newItem.prev := prev;
      current.prev := newItem;
      if newItem.prev != null {
        newItem.prev.next := newItem;
      }
      if newItem.next == first {
        first := newItem;
      }
    }

    /**
     * `remove` as written: the matching node's neighbours are joined, but
     * `first` is never moved, so removing the head leaves `first` at the
     * removed node, whose own links still lead to the rest of the chain.
     */
    method RemoveAsWritten(x: T)
      requires Valid()
      modifies Repr
      ensures first == old(first)
      ensures x !in old(Elems()) ==>
                (forall i :: 0 <= i < |old(nodes)| ==> old(nodes)[i].next == old(nodes[i].next)) &&
                (forall i :: 0 <= i < |old(nodes)| ==> old(nodes)[i].prev == old(nodes[i].prev))
      ensures x in old(Elems()) ==>
                var k := Find(old(Elems()), x);
                (k > 0 ==> old(nodes)[k - 1].next == old(nodes[k].next)) &&
                (k + 1 < |old(nodes)| ==> old(nodes)[k + 1].prev == old(nodes[k].prev)) &&
                (forall i :: 0 <= i < |old(nodes)| && i != k - 1 ==> old(nodes)[i].next == old(nodes[i].next)) &&
                (forall i :: 0 <= i < |old(nodes)| && i != k + 1 ==> old(nodes)[i].prev == old(nodes[i].prev))
    {
      var current := first;
      ghost var k := 0;
      while current != null && current.item != x
        invariant 0 <= k <= |nodes|
        invariant current == if k < |nodes| then nodes[k] else null
        invariant forall j :: 0 <= j < k ==> Elems()[j] != x
        decreases |nodes| - k
      {
        current := current.next;
        k := k + 1;
      }

      if current == null {
        FindAbsent(Elems(), x);
        return;
      }

      assert Elems()[k] == x;
      assert Find(Elems(), x) == k;
      assert current.prev == if k == 0 then null else nodes[k - 1];
      assert current.next == if k + 1 < |nodes| then nodes[k + 1] else null;
      if current.prev != null {
        current.prev.next := current.next;
      }
      if current.next != null {
        current.next.prev := current.prev;
      }
    }
  }

  /** Splicing a node into the chain splices its element into the elements. */
  lemma SpliceElems<T(0)>(ns: seq<Iter<T>>, k: nat, n: Iter<T>)
    requires k <= |ns|
    ensures Items(ns[..k] + [n] + ns[k..]) == Items(ns)[..k] + [n.item] + Items(ns)[k..]
  {
  }

  /** Unlinking the node at `k` drops the element at `k`. */
  lemma UnspliceElems<T(0)>(ns: seq<Iter<T>>, k: nat)
    requires k < |ns|
    ensures Items(ns[..k] + ns[k + 1..]) == Items(ns)[..k] + Items(ns)[k + 1..]
  {
  }

  /**
   * The source's `insertBefore` on the chain 1, 2, 3 with the cursor of 3:
   * walking forward afterwards meets 1, 9, 3 and stops, so the 2 is lost;
   * the corrected InsertBefore gives 1, 2, 9, 3.
   */
  method InsertBeforeLosesNode() returns (walk: seq<int>)
    ensures walk == [1, 9, 3]
  {
    var sentinel := new Iter<int>.Sentinel();
    var l := new List<int>(sentinel);
    l.Add(1);
    l.Add(2);
    l.Add(3);
    var c := l.Get(2);
    ghost var was := l.nodes;
    assert l.Elems() == [1, 2, 3];
    assert was[0].item == l.Elems()[0] == 1 && was[2].item == l.Elems()[2] == 3;
    assert l.first == was[0] && was[2].next == null;
    FindDistinct(was, 2);
    l.InsertBeforeAsWritten(9, c);
    var a := l.first;
    var b := a.next;
    var d := b.next;
    assert d == was[2] && d.next == null;
    walk := [a.item, b.item, d.item];
  }

  /**
   * The source's `remove` of the head of the chain 1, 2: walking forward
   * from `first` afterwards still meets 1, 2 and stops, where the corrected
   * Remove leaves 2 alone.
   */
  method RemoveHeadKeepsIt() returns (walk: seq<int>)
    ensures walk == [1, 2]
  {
    var sentinel := new Iter<int>.Sentinel();
    var l := new List<int>(sentinel);
    l.Add(1);
    l.Add(2);
    ghost var was := l.nodes;
    assert l.Elems() == [1, 2];
    assert was[0].item == l.Elems()[0] == 1 && was[1].item == l.Elems()[1] == 2;
    assert l.first == was[0] && was[0].next == was[1] && was[1].next == null;
    assert Find(l.Elems(), 1) == 0;
    l.RemoveAsWritten(1);
    var a := l.first;
    var b := a.next;
    assert b == was[1] && b.next == null;
    walk := [a.item, b.item];
  }
}
