/** The doubly linked lists of the LRU and ARC caches. */
module LruList {
  import opened Strings
  import opened Pairs
  import opened LruSpec

  class EvictNode<V> {
    const key: Str
    const value: V
    var prev: EvictNode?<V>
    var next: EvictNode?<V>
    /** The list the node was added to last. */
    ghost var home: LruList?<V>

    constructor (key: Str, value: V)
      ensures this.key == key && this.value == value
    {
      this.key, this.value, prev, next, home := key, value, null, null, null;
    }
  }

  /** The first position with the key, the length when there is none. */
  ghost predicate Seat<V>(s: seq<EvictNode<V>>, key: Str, i: nat) {
    i <= |s| && (i < |s| ==> s[i].key == key) && forall j :: 0 <= j < i ==> s[j].key != key
  }

  lemma Moves<T>(s: seq<T>, i: nat)
    requires i < |s| && forall j, k :: 0 <= j < k < |s| ==> s[j] != s[k]
    ensures forall n :: n in Without(s, i) ==> n in s && n != s[i]
  {
  }

  class LruList<V> {
    var head: EvictNode?<V>
    var tail: EvictNode?<V>
    var size: nat
    ghost var nodes: seq<EvictNode<V>>

    /** The node at position `i`, null beyond either end. */
    ghost function At(i: int): EvictNode?<V>
      reads this`nodes
    {
      if 0 <= i < |nodes| then nodes[i] else null
    }

    ghost predicate Valid()
      reads this, nodes`prev, nodes`next, nodes`home
    {
      && size == |nodes| && head == At(0) && tail == At(|nodes| - 1)
      && (forall i, j :: 0 <= i < j < |nodes| ==> nodes[i] != nodes[j])
      && (forall n :: n in nodes ==> n.home == this)
      && (forall i {:trigger nodes[i].prev} :: 0 <= i < |nodes| ==> nodes[i].prev == At(i - 1))
      && (forall i {:trigger nodes[i].next} :: 0 <= i < |nodes| ==> nodes[i].next == At(i + 1))
    }

    /** `lru_init` */
    constructor ()
      ensures Valid() && nodes == []
    {
      head, tail, size, nodes := null, null, 0, [];
    }

    /** The links bypass position `i`. */
    ghost predicate Bypassed(i: nat)
      reads this, nodes`prev, nodes`next, nodes`home
    {
      && i < |nodes| && size == |nodes| - 1
      && head == At(if i == 0 then 1 else 0)
      && tail == At(if i == |nodes| - 1 then |nodes| - 2 else |nodes| - 1)
      && (forall j, k :: 0 <= j < k < |nodes| ==> nodes[j] != nodes[k])
      && (forall n :: n in nodes ==> n.home == this)
      && (forall j {:trigger nodes[j].prev} :: 0 <= j < |nodes| && j != i ==>
        nodes[j].prev == At(if j - 1 == i then j - 2 else j - 1))
      && (forall j {:trigger nodes[j].next} :: 0 <= j < |nodes| && j != i ==>
        nodes[j].next == At(if j + 1 == i then j + 2 else j + 1))
    }

    ghost method Forget(i: nat)
      requires Bypassed(i)
      modifies this`nodes
      ensures Valid() && nodes == Without(old(nodes), i)
    {
      nodes := Without(nodes, i);
      assert forall j :: 0 <= j < i ==> nodes[j] == old(nodes)[j];
      assert forall j :: i <= j < |nodes| ==> nodes[j] == old(nodes)[j + 1];
    }

    method Bypass(node: EvictNode<V>, ghost i: nat)
      requires Valid() && i < |nodes| && nodes[i] == node
      modifies this`head, this`tail, this`size, nodes`prev, nodes`next
      ensures Bypassed(i)
    {
      assert node.prev == At(i - 1) && node.next == At(i + 1);
      if node.prev != null {
        node.prev.next := node.next;
      } else {
        head := node.next;
      }
      if node.next != null {
        node.next.prev := node.prev;
      } else {
        tail := node.prev;
      }
      size := size - 1;
    }

    /** `lru_remove` */
    method Remove(node: EvictNode<V>, ghost i: nat)
      requires Valid() && i < |nodes| && nodes[i] == node
      modifies this, nodes`prev, nodes`next
      ensures Valid() && nodes == Without(old(nodes), i)
    {
      Bypass(node, i);
      Forget(i);
    }

    /** `lru_add_front` */
    method AddFront(node: EvictNode<V>)
      requires Valid() && node !in nodes
      modifies this, nodes`prev, nodes`next, node`prev, node`next, node`home
      ensures Valid() && nodes == [node] + old(nodes)
    {
      node.next := head;
      node.prev := null;
      if head != null {
        head.prev := node;
      }
      head := node;
      if tail == null {
        tail := node;
      }
      size := size + 1;
      nodes, node.home := [node] + nodes, this;
    }

    /** `lru_touch` */
    method Touch(node: EvictNode<V>, ghost i: nat)
      requires Valid() && i < |nodes| && nodes[i] == node
      modifies this, nodes`prev, nodes`next, nodes`home
      ensures Valid() && nodes == Front(old(nodes), i)
    {
      Moves(nodes, i);
      Remove(node, i);
      AddFront(node);
    }

    /** The walk from the head for a key. */
    method Search(key: Str) returns (node: EvictNode?<V>, ghost i: nat)
      requires Valid()
      ensures Seat(nodes, key, i) && node == At(i)
    {
      node, i := head, 0;
      while node != null
        invariant i <= |nodes| && node == At(i)
        invariant forall j :: 0 <= j < i ==> nodes[j].key != key
        decreases |nodes| - i
      {
        if node.key == key {
          return;
        }
        node, i := node.next, i + 1;
      }
    }

    /** The loop that makes room for one more node. */
    method Shrink(capacity: nat)
      requires Valid() && capacity > 0
      modifies this, nodes`prev, nodes`next
      ensures Valid() && nodes == Room(old(nodes), capacity) && nodes <= old(nodes)
    {
      ghost var was := nodes;
      while size >= capacity
        invariant Valid() && nodes <= was
        invariant |nodes| == |was| || capacity - 1 <= |nodes| < |was|
        decreases size
      {
        Remove(tail, |nodes| - 1);
      }
    }
  }
}
