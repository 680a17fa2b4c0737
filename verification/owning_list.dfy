/**
 * The owning variant of the doubly-linked list (collections/List.h).
 *
 * A node (`ListItem` in C++) holds a pointer to its element, which it owns,
 * and the links to its neighbours. The list keeps only its head. Elements
 * are looked up by pointer identity: the type parameter `T` stands for the
 * pointer type `TItem*`, whose `==` compares addresses. Every result that
 * the source gives as an element pointer or `nullptr` is an `Option<T>`.
 */
module OwningList {
  import opened ListSpec

  /** A node of the chain. */
  class ListItem<T> {
    const item: T
    var next: ListItem?<T>
    var prev: ListItem?<T>

    /**
     * A node holding `item` with the given links; the source's one- and
     * two-argument constructors are this one with null for the links they
     * leave out.
     */
    constructor (item: T, prev: ListItem?<T>, next: ListItem?<T>)
      ensures this.item == item && this.prev == prev && this.next == next
    {
      this.item := item;
      this.next := next;
      this.prev := prev;
    }
  }

  /** The elements carried by a sequence of nodes, in order. */
  ghost function Items<T>(ns: seq<ListItem<T>>): (s: seq<T>)
  {
    seq(|ns|, i requires 0 <= i < |ns| => ns[i].item)
  }

  class List<T(==)> {
    /** `mFirst`: the head of the chain, null when the list is empty. */
    var first: ListItem?<T>
    /** The chain in forward order. */
    ghost var nodes: seq<ListItem<T>>
    ghost var Repr: set<object>

    /**
     * The chain invariant: `first` is the first node; each node's `next`
     * and `prev` are its neighbours in `nodes`, with null past either end;
     * and no node occurs twice, so the chain is acyclic.
     */
    ghost predicate Valid()
      reads this, Repr
      ensures Valid() ==> this in Repr
    {
      && this in Repr
      && first == (if nodes == [] then null else nodes[0])
      && (forall i :: 0 <= i < |nodes| ==> nodes[i] in Repr)
      && (forall i {:trigger nodes[i].next} :: 0 <= i < |nodes| ==>
            nodes[i].next == if i + 1 < |nodes| then nodes[i + 1] else null)
      && (forall i {:trigger nodes[i].prev} :: 0 <= i < |nodes| ==>
            nodes[i].prev == if i == 0 then null else nodes[i - 1])
      && Distinct(nodes)
    }

    /** The element pointers of the list, head first. */
    ghost function Elems(): seq<T>
      reads this
    {
      Items(nodes)
    }

    /** An empty list. */
    constructor ()
      ensures Valid() && fresh(Repr) && Elems() == []
    {
      first := null;
      nodes := [];
      Repr := {this};
    }

    /** `add`: append `p` after the current tail. */
    method Add(p: T)
      requires Valid()
      modifies Repr
      ensures Valid() && fresh(Repr - old(Repr))
      ensures Elems() == old(Elems()) + [p]
      ensures |nodes| == |old(nodes)| + 1 && nodes[..|old(nodes)|] == old(nodes)
      ensures old(first) == null ==> first == nodes[0] && first.item == p
      ensures old(first) != null ==> first == old(first)
    {
      if first == null {
        var n := new ListItem(p, null, null);
        first := n;
        nodes := [n];
        Repr := Repr + {n};
        return;
      }

      // The source calls `last()` here, which answers the tail's element
      // rather than the tail node; the evident intent is the tail node.
      var last := LastNode();
      var newItem := new ListItem(p, last, null);
      last.next := newItem;
      nodes := nodes + [newItem];
      Repr := Repr + {newItem};
    }

    /**
     * `insertAfter`: splice a second node holding `p` in just after the
     * first node that holds `p`. On an empty list `p` becomes the only
     * element; when no node holds `p` nothing changes.
     */
    method InsertAfter(p: T)
      requires Valid()
      modifies Repr
      ensures Valid() && fresh(Repr - old(Repr))
      ensures old(nodes) == [] ==> Elems() == [p]
      ensures old(nodes) != [] && p !in old(Elems()) ==> nodes == old(nodes) && first == old(first)
      ensures old(nodes) != [] && p in old(Elems()) ==>
                var k := Find(old(Elems()), p);
                Elems() == old(Elems())[..k + 1] + [p] + old(Elems())[k + 1..] &&
                |nodes| == |old(nodes)| + 1 && nodes == old(nodes)[..k + 1] + [nodes[k + 1]] + old(nodes)[k + 1..] &&
                first == old(first)
    {
      var current := first;
      if current == null {
        var n := new ListItem(p, null, null);
        first := n;
        nodes := [n];
        Repr := Repr + {n};
        return;
      }

      // The source also tracks a `prev` here; it is only read on the
      // not-found path, to build a node that never enters the chain.
      ghost var k := 0;
      while current != null && current.item != p
        invariant 0 <= k <= |nodes|
        invariant current == if k < |nodes| then nodes[k] else null
        invariant forall j :: 0 <= j < k ==> Elems()[j] != p
        decreases |nodes| - k
      {
        current := current.next;
        k := k + 1;
      }

      if current == null {
        FindAbsent(Elems(), p);
        return;
      }

      assert Elems()[k] == p;
      assert Find(Elems(), p) == k;
      ghost var was := nodes;
      var n := LinkAfter(current, k);
      SpliceElems(was, k + 1, n);
    }

    /**
     * The splice that ends `insertAfter`: a new node holding the same
     * element as `current`, the node at k, goes between it and its
     * successor, and the successor's `prev` is moved to the new node.
     */
    method LinkAfter(current: ListItem<T>, ghost k: nat) returns (newItem: ListItem<T>)
      requires Valid() && k < |nodes| && current == nodes[k]
      modifies Repr
      ensures Valid() && fresh(newItem) && Repr == old(Repr) + {newItem}
      ensures nodes == old(nodes)[..k + 1] + [newItem] + old(nodes)[k + 1..]
      ensures newItem.item == current.item && first == old(first)
    {
      assert current.next == if k + 1 < |nodes| then nodes[k + 1] else null;
      newItem := new ListItem(current.item, current, current.next);
      assert newItem !in Repr;
      current.next := newItem;
      // The source tests `current->mNext` here, which it has just set to
      // the new node; the evident intent, modelled, is the old successor.
      if newItem.next != null {
        newItem.next.prev := newItem;
      }
      ghost var was := nodes;
      nodes := nodes[..k + 1] + [newItem] + nodes[k + 1..];
      Repr := Repr + {newItem};
      DistinctInsert(was, k + 1, newItem);
      forall i | 0 <= i < |nodes|
        ensures nodes[i].next == if i + 1 < |nodes| then nodes[i + 1] else null
        ensures nodes[i].prev == if i == 0 then null else nodes[i - 1]
      {
        if i <= k {
          assert nodes[i] == was[i];
        } else if i > k + 1 {
          assert nodes[i] == was[i - 1];
        }
      }
    }

    /**
     * `remove`: unlink the first node that holds `p`, joining its
     * neighbours; nothing changes when no node holds `p`. The node's
     * destructor releases the element, which then no longer occurs in the
     * list unless it was held twice.
     */
    method Remove(p: T)
      requires Valid()
      modifies Repr
      ensures Valid() && Repr == old(Repr)
      ensures Elems() == RemoveFirst(old(Elems()), p)
      ensures p !in old(Elems()) ==> nodes == old(nodes) && first == old(first)
      ensures p in old(Elems()) ==>
                var k := Find(old(Elems()), p);
                nodes == old(nodes)[..k] + old(nodes)[k + 1..]
      ensures multiset(old(Elems()))[p] <= 1 ==> p !in Elems()
    {
      var current := first;
      ghost var k := 0;
      while current != null && current.item != p
        invariant 0 <= k <= |nodes|
        invariant current == if k < |nodes| then nodes[k] else null
        invariant forall j :: 0 <= j < k ==> Elems()[j] != p
        decreases |nodes| - k
      {
        current := current.next;
        k := k + 1;
      }

      if current == null {
        FindAbsent(Elems(), p);
        return;
      }

      assert Elems()[k] == p;
      assert Find(Elems(), p) == k;
      ghost var was := nodes;
      ghost var before := Elems();
      Unlink(current, k);
      UnspliceElems(was, k);
      if multiset(before)[p] <= 1 {
        RemoveFirstGone(before, p);
      }
    }

    /**
     * The unlinking that ends `remove`: the node at k leaves the chain and
     * its neighbours are joined; when it was the head, its successor
     * becomes the head.
     */
    method Unlink(current: ListItem<T>, ghost k: nat)
      requires Valid() && k < |nodes| && current == nodes[k]
      modifies Repr
      ensures Valid() && Repr == old(Repr)
      ensures nodes == old(nodes)[..k] + old(nodes)[k + 1..]
    {
      assert current.prev == if k == 0 then null else nodes[k - 1];
      assert current.next == if k + 1 < |nodes| then nodes[k + 1] else null;
      if current.prev != null {
        current.prev.next := current.next;
      }
      if current.next != null {
        current.next.prev := current.prev;
      }
      // The source never moves `mFirst`, so removing the head leaves it at
      // the deleted node; the evident intent, modelled, advances it.
      if current == first {
        first := current.next;
      }
      ghost var was := nodes;
      nodes := nodes[..k] + nodes[k + 1..];
      forall i | 0 <= i < |nodes|
        ensures nodes[i].next == if i + 1 < |nodes| then nodes[i + 1] else null
        ensures nodes[i].prev == if i == 0 then null else nodes[i - 1]
      {
        if i < k {
          assert nodes[i] == was[i];
        } else {
          assert nodes[i] == was[i + 1];
        }
      }
    }

    /** `size`: the number of nodes, counted in a `uint8_t` that wraps at 256. */
    method Size() returns (n: Byte)
      requires Valid()
      ensures n == |Elems()| % 0x100
      ensures |Elems()| < 0x100 ==> n == |Elems()|
    {
      n := 0;
      var current := first;
      ghost var k := 0;
      while current != null
        invariant 0 <= k <= |nodes|
        invariant current == if k < |nodes| then nodes[k] else null
        invariant n == k % 0x100
        decreases |nodes| - k
      {
        current := current.next;
        n := (n + 1) % 0x100;
        k := k + 1;
      }
    }

    /** `get`: the element at position `index`, or none past the end. */
    method Get(index: Byte) returns (r: Option<T>)
      requires Valid()
      ensures r.Some? <==> index < |Elems()|
      ensures r.Some? ==> r.value == Elems()[index]
    {
      var current := first;
      var i := index;
      ghost var k := 0;
      // `index-- > 0`: the decrement happens only when `current` is not
      // null, and its wrap-around at zero ends the loop without being read.
      while current != null && i > 0
        invariant 0 <= k <= |nodes| && k + i == index
        invariant current == if k < |nodes| then nodes[k] else null
        decreases i
      {
        i := i - 1;
        current := current.next;
        k := k + 1;
      }

      if current == null {
        return None;
      }
      return Some(current.item);
    }

    /** `first`: the head's element, or none when the list is empty. */
    method First() returns (r: Option<T>)
      requires Valid()
      ensures r.Some? <==> Elems() != []
      ensures r.Some? ==> r.value == Elems()[0]
    {
      if first == null {
        return None;
      }
      return Some(first.item);
    }

    /** `last`: the tail's element, or none when the list is empty. */
    method Last() returns (r: Option<T>)
      requires Valid()
      ensures r.Some? <==> Elems() != []
      ensures r.Some? ==> r.value == Elems()[|Elems()| - 1]
    {
      var current := LastNode();
      if current == null {
        return None;
      }
      return Some(current.item);
    }

    /**
     * The walk of `last` to the tail, the one node whose `next` is null;
     * null when the list is empty.
     */
    method LastNode() returns (r: ListItem?<T>)
      requires Valid()
      ensures r == null <==> nodes == []
      ensures r != null ==> r == nodes[|nodes| - 1] && r.next == null
    {
      var current := first;
      if current == null {
        return null;
      }

      ghost var k := 0;
      while current.next != null
        invariant 0 <= k < |nodes| && current == nodes[k]
        decreases |nodes| - k
      {
        current := current.next;
        k := k + 1;
      }
      // The source tests `current` against null once more here; after the
      // loop it cannot be null, so that branch is left out.
      return current;
    }

    /**
     * `next`: the element after the first node holding `p`; none when the
     * list is empty, no node holds `p`, or that node is the tail.
     */
    method Next(p: T) returns (r: Option<T>)
      requires Valid()
      ensures r == Successor(Elems(), p)
    {
      var current := first;
      if current == null {
        return None;
      }

      ghost var k := 0;
      while current != null && current.item != p
        invariant 0 <= k <= |nodes|
        invariant current == if k < |nodes| then nodes[k] else null
        invariant forall j :: 0 <= j < k ==> Elems()[j] != p
        decreases |nodes| - k
      {
        current := current.next;
        k := k + 1;
      }

      if current == null || current.next == null {
        return None;
      }
      assert Elems()[k] == p;
      return Some(current.next.item);
    }

    /**
     * `prev`: the element before the first node holding `p`; none when the
     * list is empty, no node holds `p`, or that node is the head.
     */
    method Prev(p: T) returns (r: Option<T>)
      requires Valid()
      ensures r == Predecessor(Elems(), p)
    {
      var current := first;
      if current == null {
        return None;
      }

      ghost var k := 0;
      while current != null && current.item != p
        invariant 0 <= k <= |nodes|
        invariant current == if k < |nodes| then nodes[k] else null
        invariant forall j :: 0 <= j < k ==> Elems()[j] != p
        decreases |nodes| - k
      {
        current := current.next;
        k := k + 1;
      }

      if current == null || current.prev == null {
        return None;
      }
      assert Elems()[k] == p;
      return Some(current.prev.item);
    }

    // The two members below keep the source's defective paths exactly as
    // written. The rest of the model uses the corrected InsertAfter and
    // Remove above; these exist to state what the source actually does.
    // Neither restores the chain invariant, so `nodes` and `Repr` are left
    // describing the chain as it was before the call.

    /**
     * `insertAfter` as written: it sets `current`'s `next` to the new node
     * and then tests that same field, so it is the new node whose `prev` is
     * moved, onto itself, while the old successor's `prev` still names
     * `current`. Forward links are spliced correctly; backward links skip
     * the new node, which points back at itself.
     */
    method InsertAfterAsWritten(p: T)
      requires Valid()
      modifies Repr
      ensures old(nodes) == [] ==> first != null && first.item == p && first.next == null && first.prev == null
      ensures old(nodes) != [] && p !in old(Elems()) ==>
                first == old(first) &&
                (forall i :: 0 <= i < |old(nodes)| ==> old(nodes)[i].next == old(nodes[i].next)) &&
                (forall i :: 0 <= i < |old(nodes)| ==> old(nodes)[i].prev == old(nodes[i].prev))
      ensures old(nodes) != [] && p in old(Elems()) ==>
                var k := Find(old(Elems()), p);
                var n := old(nodes)[k].next;
                first == old(first) &&
                n != null && n.item == p && n.prev == n &&
                n.next == old(nodes[k].next) &&
                (k + 1 < |old(nodes)| ==> old(nodes)[k + 1].prev == old(nodes)[k]) &&
                (forall i :: 0 <= i < |old(nodes)| && i != k ==> old(nodes)[i].next == old(nodes[i].next)) &&
                (forall i :: 0 <= i < |old(nodes)| ==> old(nodes)[i].prev == old(nodes[i].prev))
    {
      var current := first;
      if current == null {
        first := new ListItem(p, null, null);
        return;
      }

      var prev: ListItem?<T> := null;
      ghost var k := 0;
      while current != null && current.item != p
        invariant 0 <= k <= |nodes|
        invariant current == if k < |nodes| then nodes[k] else null
        invariant prev == if k < 2 then null else nodes[k - 2]
        invariant forall j :: 0 <= j < k ==> Elems()[j] != p
        decreases |nodes| - k
      {
        prev := current.prev;
        current := current.next;
        k := k + 1;
      }

      var newItem: ListItem<T>;
      if current == null {
        FindAbsent(Elems(), p);
        newItem := new ListItem(p, prev, null);
        return;
      }

      assert Elems()[k] == p;
      assert Find(Elems(), p) == k;
      assert current.next == if k + 1 < |nodes| then nodes[k + 1] else null;
      newItem := new ListItem(p, current, current.next);
      current.next := newItem;
      if current.next != null {
        current.next.prev := newItem;
      }
    }

    /**
     * `remove` as written: the matching node's neighbours are joined, but
     * `first` is never moved, so removing the head leaves `first` at the
     * removed node, whose own links still lead to the rest of the chain.
     */
    method RemoveAsWritten(p: T)
      requires Valid()
      modifies Repr
      ensures first == old(first)
      ensures p !in old(Elems()) ==>
                (forall i :: 0 <= i < |old(nodes)| ==> old(nodes)[i].next == old(nodes[i].next)) &&
                (forall i :: 0 <= i < |old(nodes)| ==> old(nodes)[i].prev == old(nodes[i].prev))
      ensures p in old(Elems()) ==>
                var k := Find(old(Elems()), p);
                (k > 0 ==> old(nodes)[k - 1].next == old(nodes[k].next)) &&
                (k + 1 < |old(nodes)| ==> old(nodes)[k + 1].prev == old(nodes[k].prev)) &&
                (forall i :: 0 <= i < |old(nodes)| && i != k - 1 ==> old(nodes)[i].next == old(nodes[i].next)) &&
                (forall i :: 0 <= i < |old(nodes)| && i != k + 1 ==> old(nodes)[i].prev == old(nodes[i].prev))
    {
      var current := first;
      ghost var k := 0;
      while current != null && current.item != p
        invariant 0 <= k <= |nodes|
        invariant current == if k < |nodes| then nodes[k] else null
        invariant forall j :: 0 <= j < k ==> Elems()[j] != p
        decreases |nodes| - k
      {
        current := current.next;
        k := k + 1;
      }

      if current == null {
        FindAbsent(Elems(), p);
        return;
      }

      assert Elems()[k] == p;
      assert Find(Elems(), p) == k;
      assert current.prev == if k == 0 then null else nodes[k - 1];
      assert current.next == if k + 1 < |nodes| then nodes[k + 1] else null;
      if current.prev != null {
        current.prev.next := current.next;
      }
      if current.next != null {
        current.next.prev := current.prev;
      }
    }
  }

  /** Splicing a node into the chain splices its element into the elements. */
  lemma SpliceElems<T>(ns: seq<ListItem<T>>, k: nat, n: ListItem<T>)
    requires k <= |ns|
    ensures Items(ns[..k] + [n] + ns[k..]) == Items(ns)[..k] + [n.item] + Items(ns)[k..]
  {
  }

  /** Unlinking the node at `k` drops the element at `k`. */
  lemma UnspliceElems<T>(ns: seq<ListItem<T>>, k: nat)
    requires k < |ns|
    ensures Items(ns[..k] + ns[k + 1..]) == Items(ns)[..k] + Items(ns)[k + 1..]
  {
  }

  /**
   * The source's `insertAfter(1)` on the chain 1, 2: walking backward from
   * the tail afterwards meets 2, 1 and stops, and the new node's `prev`
   * is the node itself; the corrected InsertAfter gives 1, 1, 2 both ways.
   */
  method InsertAfterBreaksBackLinks() returns (back: seq<int>, selfLinked: bool)
    ensures back == [2, 1]
    ensures selfLinked
  {
    var l := new List<int>();
    l.Add(1);
    l.Add(2);
    ghost var was := l.nodes;
    assert l.Elems() == [1, 2];
    assert was[0].item == l.Elems()[0] == 1 && was[1].item == l.Elems()[1] == 2;
    assert l.first == was[0] && was[0].prev == null && was[1].prev == was[0];
    assert Find(l.Elems(), 1) == 0;
    l.InsertAfterAsWritten(1);
    var head := l.first;
    var newItem := head.next;
    selfLinked := newItem.prev == newItem;
    var tail := newItem.next;
    var before := tail.prev;
    assert head == was[0] && tail == was[1] && before == was[0] && before.prev == null;
    back := [tail.item, before.item];
  }

  /**
   * The source's `remove` of the head of the chain 1, 2: walking forward
   * from `first` afterwards still meets 1, 2 and stops, where the corrected
   * Remove leaves 2 alone.
   */
  method RemoveHeadKeepsIt() returns (walk: seq<int>)
    ensures walk == [1, 2]
  {
    var l := new List<int>();
    l.Add(1);
    l.Add(2);
    ghost var was := l.nodes;
    assert l.Elems() == [1, 2];
    assert was[0].item == l.Elems()[0] == 1 && was[1].item == l.Elems()[1] == 2;
    assert l.first == was[0] && was[0].next == was[1] && was[1].next == null;
    assert Find(l.Elems(), 1) == 0;
    l.RemoveAsWritten(1);
    var a := l.first;
    var b := a.next;
    assert b == was[1] && b.next == null;
    walk := [a.item, b.item];
  }
}
