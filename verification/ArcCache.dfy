/** The ARC cache in place: nodes move between four linked lists. */
module ArcCache {
  import opened Strings
  import opened Pairs
  import opened CacheBag
  import opened LruSpec
  import opened LruList
  import Arc

  type Node = EvictNode<Option<Str>>
  type List = LruList<Option<Str>>

  function Items(s: seq<Node>): (e: seq<Arc.Entry>)
    ensures |e| == |s| && forall i :: 0 <= i < |s| ==> e[i] == Arc.Entry(s[i].key, s[i].value)
  {
    seq(|s|, i requires 0 <= i < |s| => Arc.Entry(s[i].key, s[i].value))
  }

  lemma ItemsSeat(s: seq<Node>, key: Str, i: nat)
    requires Seat(s, key, i)
    ensures i == Arc.Locate(Items(s), key)
  {
  }

  lemma ItemsMove(s: seq<Node>, i: nat, t: seq<Node>)
    requires i < |s|
    ensures Items(Without(s, i)) == Without(Items(s), i)
    ensures Items([s[i]] + t) == [Items(s)[i]] + Items(t)
    ensures Items(Front(s, i)) == Front(Items(s), i)
  {
  }

  /** `lru_remove_node`, with other lists standing by. */
  method TakeFrom(list: List, node: Node, ghost i: nat, ghost others: set<List>)
    requires list.Valid() && i < |list.nodes| && node == list.nodes[i]
    requires forall o :: o in others ==> o != list && o.Valid()
    modifies list, list.nodes`prev, list.nodes`next
    ensures list.Valid() && list.nodes == Without(old(list.nodes), i)
    ensures forall o :: o in others ==> o.Valid() && o.nodes == old(o.nodes)
  {
    forall o, n | o in others && n in o.nodes ensures n !in list.nodes {
      assert n.home == o;
    }
    list.Remove(node, i);
    forall o | o in others ensures o.Valid() {
      assert forall n :: n in o.nodes ==> n.prev == old(n.prev) && n.next == old(n.next);
    }
  }

  /** `lru_add_node_front`, with other lists standing by. */
  method PutFront(list: List, node: Node, ghost others: set<List>)
    requires list.Valid() && node !in list.nodes
    requires forall o :: o in others ==> o != list && o.Valid() && node !in o.nodes
    modifies list, list.nodes`prev, list.nodes`next, node`prev, node`next, node`home
    ensures list.Valid() && list.nodes == [node] + old(list.nodes)
    ensures forall o :: o in others ==> o.Valid() && o.nodes == old(o.nodes)
  {
    forall o, n | o in others && n in o.nodes ensures n !in list.nodes {
      assert n.home == o;
    }
    list.AddFront(node);
    forall o | o in others ensures o.Valid() {
      assert forall n :: n in o.nodes ==> n.prev == old(n.prev) && n.next == old(n.next) && n.home == old(n.home);
    }
  }

  /** A node leaves one list for the front of another. */
  method Transfer(from: List, to: List, node: Node, ghost i: nat, ghost others: set<List>)
    requires from.Valid() && to.Valid() && from != to && i < |from.nodes| && node == from.nodes[i]
    requires forall o :: o in others ==> o != from && o != to && o.Valid()
    modifies from, to, from.nodes, to.nodes
    ensures from.Valid() && from.nodes == Without(old(from.nodes), i)
    ensures to.Valid() && to.nodes == [node] + old(to.nodes)
    ensures forall o :: o in others ==> o.Valid() && o.nodes == old(o.nodes)
  {
    assert node.home == from;
    Moves(from.nodes, i);
    TakeFrom(from, node, i, others + {to});
    PutFront(to, node, others + {from});
  }

  /** The loop that drops the oldest ghosts. */
  method Shorten(list: List, max: nat, ghost others: set<List>)
    requires list.Valid() && forall o :: o in others ==> o != list && o.Valid()
    modifies list, list.nodes`prev, list.nodes`next
    ensures list.Valid() && list.nodes == if |old(list.nodes)| > max then old(list.nodes)[..max] else old(list.nodes)
    ensures forall o :: o in others ==> o.Valid() && o.nodes == old(o.nodes)
  {
    ghost var was := list.nodes;
    while list.size > max
      invariant list.Valid() && |list.nodes| <= |was| && list.nodes == was[..|list.nodes|]
      invariant |list.nodes| == |was| || |list.nodes| >= max
      invariant forall o :: o in others ==> o.Valid() && o.nodes == old(o.nodes)
      decreases list.size
    {
      TakeFrom(list, list.tail, |list.nodes| - 1, others);
    }
  }

  /** A new ghost enters the front of a list of ghosts. */
  method Haunt(list: List, key: Str, max: nat, ghost others: set<List>)
    requires list.Valid() && forall o :: o in others ==> o != list && o.Valid()
    modifies list, list.nodes`prev, list.nodes`next
    ensures list.Valid() && Items(list.nodes) == Arc.Trim([Arc.Entry(key, None)] + Items(old(list.nodes)), max)
    ensures forall o :: o in others ==> o.Valid() && o.nodes == old(o.nodes)
    ensures forall n :: n in list.nodes ==> n in old(list.nodes) || fresh(n)
  {
    var g := new EvictNode<Option<Str>>(key, None);
    Enlist(list, g, max, others);
  }

  method Enlist(list: List, node: Node, max: nat, ghost others: set<List>)
    requires list.Valid() && node !in list.nodes
    requires forall o :: o in others ==> o != list && o.Valid() && node !in o.nodes
    modifies list, list.nodes`prev, list.nodes`next, node`prev, node`next, node`home
    ensures list.Valid()
    ensures Items(list.nodes) == Arc.Trim([Arc.Entry(node.key, node.value)] + Items(old(list.nodes)), max)
    ensures forall o :: o in others ==> o.Valid() && o.nodes == old(o.nodes)
    ensures forall n :: n in list.nodes ==> n in old(list.nodes) || n == node
  {
    ItemsTrim(node, list.nodes, max);
    PutFront(list, node, others);
    Shorten(list, max, others);
  }

  lemma ItemsTrim(node: Node, s: seq<Node>, max: nat)
    ensures var t := [node] + s;
      Items(if |t| > max then t[..max] else t) == Arc.Trim([Arc.Entry(node.key, node.value)] + Items(s), max)
  {
  }

  /** A list's last node leaves, and a ghost of it enters another list. */
  method Banish(from: List, to: List, max: nat, ghost others: set<List>)
    requires from.Valid() && to.Valid() && from != to && from.nodes != []
    requires forall o :: o in others ==> o != from && o != to && o.Valid()
    modifies from, to, from.nodes, to.nodes
    ensures from.Valid() && from.nodes == Arc.Init(old(from.nodes))
    ensures to.Valid()
    ensures Items(to.nodes) == Arc.Trim([Arc.Ghost(Arc.Last(Items(old(from.nodes))))] + Items(old(to.nodes)), max)
    ensures forall o :: o in others ==> o.Valid() && o.nodes == old(o.nodes)
    ensures forall n :: n in to.nodes ==> n in old(to.nodes) || fresh(n)
  {
    var victim := from.tail;
    TakeFrom(from, victim, |from.nodes| - 1, others + {to});
    Haunt(to, victim.key, max, others + {from});
  }

  class ArcCache {
    const max: nat
    var target: int
    const t1: List
    const t2: List
    const b1: List
    const b2: List

    ghost predicate Valid()
      reads t1, t2, b1, b2, t1.nodes, t2.nodes, b1.nodes, b2.nodes
    {
      && t1 != t2 && t1 != b1 && t1 != b2 && t2 != b1 && t2 != b2 && b1 != b2
      && t1.Valid() && t2.Valid() && b1.Valid() && b2.Valid()
    }

    ghost function State(): Arc.State
      reads this`target, t1`nodes, t2`nodes, b1`nodes, b2`nodes
    {
      Arc.State(Items(t1.nodes), Items(t2.nodes), Items(b1.nodes), Items(b2.nodes), target, max)
    }

    ghost function All(): set<Node>
      reads t1`nodes, t2`nodes, b1`nodes, b2`nodes
    {
      (set n | n in t1.nodes) + (set n | n in t2.nodes) + (set n | n in b1.nodes) + (set n | n in b2.nodes)
    }

    /** `arc_init` */
    constructor (max: nat)
      ensures Valid() && State() == Arc.Start(max) && fresh(t1) && fresh(t2) && fresh(b1) && fresh(b2) && All() == {}
    {
      this.max, target := max, max / 2;
      t1 := new LruList<Option<Str>>();
      t2 := new LruList<Option<Str>>();
      b1 := new LruList<Option<Str>>();
      b2 := new LruList<Option<Str>>();
    }

    /** `lru_find` on one of the four lists. */
    method Find(list: List, key: Str) returns (node: EvictNode?<Option<Str>>, ghost i: nat)
      requires Valid() && list in {t1, t2, b1, b2}
      ensures Valid() && State() == old(State()) && All() == old(All())
      ensures node == list.At(i) && i == Arc.Locate(Items(list.nodes), key) && i <= |list.nodes|
    {
      node, i := list.Search(key);
      ItemsSeat(list.nodes, key, i);
    }

    method FromT1(node: Node, ghost i: nat)
      requires Valid() && i < |t1.nodes| && node == t1.nodes[i]
      modifies t1, t2, t1.nodes, t2.nodes
      ensures Valid() && All() <= old(All())
      ensures State() == var a := old(State()); a.(t1 := Without(a.t1, i), t2 := [a.t1[i]] + a.t2)
    {
      ItemsMove(t1.nodes, i, t2.nodes);
      Transfer(t1, t2, node, i, {b1, b2});
    }

    method InT2(node: Node, ghost i: nat)
      requires Valid() && i < |t2.nodes| && node == t2.nodes[i]
      modifies t2, t2.nodes
      ensures Valid() && All() <= old(All())
      ensures State() == var a := old(State()); a.(t2 := Front(a.t2, i))
    {
      ItemsMove(t2.nodes, i, []);
      Moves(t2.nodes, i);
      hide LruList.Valid;
      TakeFrom(t2, node, i, {t1, b1, b2});
      PutFront(t2, node, {t1, b1, b2});
    }

    method FromB1(node: Node, ghost i: nat)
      requires Valid() && i < |b1.nodes| && node == b1.nodes[i]
      modifies b1, t2, b1.nodes, t2.nodes
      ensures Valid() && All() <= old(All())
      ensures State() == var a := old(State()); a.(b1 := Without(a.b1, i), t2 := [a.b1[i]] + a.t2)
    {
      ItemsMove(b1.nodes, i, t2.nodes);
      Transfer(b1, t2, node, i, {t1, b2});
    }

    method FromB2(node: Node, ghost i: nat)
      requires Valid() && i < |b2.nodes| && node == b2.nodes[i]
      modifies b2, t2, b2.nodes, t2.nodes
      ensures Valid() && All() <= old(All())
      ensures State() == var a := old(State()); a.(b2 := Without(a.b2, i), t2 := [a.b2[i]] + a.t2)
    {
      ItemsMove(b2.nodes, i, t2.nodes);
      Transfer(b2, t2, node, i, {t1, b1});
    }

    method Raise()
      requires Valid() && b1.nodes != []
      modifies this`target
      ensures Valid() && All() == old(All()) && State() == old(State()).(target := Arc.Raised(old(State())))
    {
      var delta := 1;
      if b2.size > 0 {
        delta := b2.size / b1.size;
        if delta < 1 {
          delta := 1;
        }
      }
      target := target + delta;
      if target > max {
        target := max;
      }
    }

    method Lower()
      requires Valid() && b2.nodes != []
      modifies this`target
      ensures Valid() && All() == old(All()) && State() == old(State()).(target := Arc.Lowered(old(State())))
    {
      var delta := 1;
      if b1.size > 0 {
        delta := b1.size / b2.size;
        if delta < 1 {
          delta := 1;
        }
      }
      target := target - delta;
      if target < 0 {
        target := 0;
      }
    }

    method HitB1(node: Node, ghost i: nat)
      requires Valid() && i < |b1.nodes| && node == b1.nodes[i]
      modifies this`target, b1, t2, b1.nodes, t2.nodes
      ensures Valid() && All() <= old(All())
      ensures State() == var a := old(State());
        a.(b1 := Without(a.b1, i), t2 := [a.b1[i]] + a.t2, target := Arc.Raised(a))
    {
      Raise();
      FromB1(node, i);
    }

    method HitB2(node: Node, ghost i: nat)
      requires Valid() && i < |b2.nodes| && node == b2.nodes[i]
      modifies this`target, b2, t2, b2.nodes, t2.nodes
      ensures Valid() && All() <= old(All())
      ensures State() == var a := old(State());
        a.(b2 := Without(a.b2, i), t2 := [a.b2[i]] + a.t2, target := Arc.Lowered(a))
    {
      Lower();
      FromB2(node, i);
    }

    method AccessGhosts(key: Str) returns (hit: Arc.Outcome)
      requires Valid()
      modifies this`target, t2, b1, b2, t2.nodes, b1.nodes, b2.nodes
      ensures Valid() && All() <= old(All())
      ensures (State(), hit) == Arc.AccessGhosts(old(State()), key)
    {
      var node;
      ghost var i;
      node, i := Find(b1, key);
      if node != null {
        HitB1(node, i);
        return Arc.HitB1;
      }
      node, i := Find(b2, key);
      if node != null {
        HitB2(node, i);
        return Arc.HitB2;
      }
      return Arc.Miss;
    }

    /** `arc_access` */
    method Access(key: Str) returns (hit: Arc.Outcome)
      requires Valid()
      modifies this`target, t1, t2, b1, b2, t1.nodes, t2.nodes, b1.nodes, b2.nodes
      ensures Valid() && All() <= old(All())
      ensures (State(), hit) == Arc.Access(old(State()), key)
    {
      hide Valid, LruList.Valid, Items, Arc.AccessGhosts, Without;
      var node;
      ghost var i;
      node, i := Find(t1, key);
      if node != null {
        FromT1(node, i);
        return Arc.HitT1;
      }
      node, i := Find(t2, key);
      if node != null {
        InT2(node, i);
        return Arc.HitT2;
      }
      hit := AccessGhosts(key);
    }

    method EvictT1()
      requires Valid() && t1.nodes != []
      modifies t1, b1, t1.nodes, b1.nodes
      ensures Valid() && forall n :: n in All() ==> n in old(All()) || fresh(n)
      ensures t1.nodes <= old(t1.nodes)
      ensures State() == var a := old(State());
        a.(t1 := Arc.Init(a.t1), b1 := Arc.Trim([Arc.Ghost(Arc.Last(a.t1))] + a.b1, a.max))
    {
      Banish(t1, b1, max, {t2, b2});
    }

    method EvictT2()
      requires Valid() && t2.nodes != []
      modifies t2, b2, t2.nodes, b2.nodes
      ensures Valid() && forall n :: n in All() ==> n in old(All()) || fresh(n)
      ensures State() == var a := old(State());
        a.(t2 := Arc.Init(a.t2), b2 := Arc.Trim([Arc.Ghost(Arc.Last(a.t2))] + a.b2, a.max))
    {
      Banish(t2, b2, max, {t1, b1});
    }

    /** `arc_evict` */
    method Evict()
      requires Valid()
      modifies t1, t2, b1, b2, t1.nodes, t2.nodes, b1.nodes, b2.nodes
      ensures Valid() && forall n :: n in All() ==> n in old(All()) || fresh(n)
      ensures State() == Arc.Evict(old(State())) && t1.nodes <= old(t1.nodes)
    {
      if t1.size + t2.size < max {
        return;
      }
      if t1.size > target && t1.tail != null {
        EvictT1();
      } else if t2.tail != null {
        EvictT2();
      }
    }

    method Enter(node: Node)
      requires Valid() && node !in All()
      modifies t1, t1.nodes, node`prev, node`next, node`home
      ensures Valid() && All() == old(All()) + {node}
      ensures State() == var a := old(State()); a.(t1 := [Arc.Entry(node.key, node.value)] + a.t1)
    {
      PutFront(t1, node, {t2, b1, b2});
    }

    method Insert(key: Str, value: Str)
      requires Valid()
      modifies t1, t1.nodes
      ensures Valid() && forall n :: n in All() ==> n in old(All()) || fresh(n)
      ensures State() == var a := old(State()); a.(t1 := [Arc.Entry(key, Some(value))] + a.t1)
    {
      hide Valid;
      var node := new EvictNode<Option<Str>>(key, Some(value));
      Enter(node);
    }

    /** `arc_add` */
    method Add(key: Str, value: Str)
      requires Valid()
      modifies t1, t2, b1, b2, t1.nodes, t2.nodes, b1.nodes, b2.nodes
      ensures Valid() && forall n :: n in All() ==> n in old(All()) || fresh(n)
      ensures State() == Arc.Add(old(State()), key, value)
    {
      Evict();
      Insert(key, value);
    }

    /** `arc_get` */
    method Get(key: Str) returns (r: Option<Str>)
      requires Valid()
      modifies this`target, t1, t2, b1, b2, t1.nodes, t2.nodes, b1.nodes, b2.nodes
      ensures Valid() && All() <= old(All())
      ensures (State(), r) == Arc.Get(old(State()), key)
    {
      var hit := Access(key);
      r := None;
      if hit.HitT1? || hit.HitT2? {
        r := Value(key);
      }
    }

    method Value(key: Str) returns (r: Option<Str>)
      requires Valid()
      ensures Valid() && State() == old(State()) && All() == old(All())
      ensures var a := State(); var j, i := Arc.Locate(a.t2, key), Arc.Locate(a.t1, key);
        r == if j < |a.t2| then a.t2[j].value else if i < |a.t1| then a.t1[i].value else None
    {
      var node;
      ghost var i;
      node, i := Find(t2, key);
      if node == null {
        node, i := Find(t1, key);
      }
      r := if node != null then node.value else None;
    }

    method DropT1(node: Node, ghost i: nat)
      requires Valid() && i < |t1.nodes| && node == t1.nodes[i]
      modifies t1, t1.nodes
      ensures Valid() && All() <= old(All())
      ensures State() == var a := old(State()); a.(t1 := Without(a.t1, i))
    {
      ItemsMove(t1.nodes, i, []);
      Moves(t1.nodes, i);
      TakeFrom(t1, node, i, {t2, b1, b2});
    }

    method DropT2(node: Node, ghost i: nat)
      requires Valid() && i < |t2.nodes| && node == t2.nodes[i]
      modifies t2, t2.nodes
      ensures Valid() && All() <= old(All())
      ensures State() == var a := old(State()); a.(t2 := Without(a.t2, i))
    {
      ItemsMove(t2.nodes, i, []);
      Moves(t2.nodes, i);
      TakeFrom(t2, node, i, {t1, b1, b2});
    }

    method DropB1(node: Node, ghost i: nat)
      requires Valid() && i < |b1.nodes| && node == b1.nodes[i]
      modifies b1, b1.nodes
      ensures Valid() && All() <= old(All())
      ensures State() == var a := old(State()); a.(b1 := Without(a.b1, i))
    {
      ItemsMove(b1.nodes, i, []);
      Moves(b1.nodes, i);
      TakeFrom(b1, node, i, {t1, t2, b2});
    }

    method DropB2(node: Node, ghost i: nat)
      requires Valid() && i < |b2.nodes| && node == b2.nodes[i]
      modifies b2, b2.nodes
      ensures Valid() && All() <= old(All())
      ensures State() == var a := old(State()); a.(b2 := Without(a.b2, i))
    {
      ItemsMove(b2.nodes, i, []);
      Moves(b2.nodes, i);
      TakeFrom(b2, node, i, {t1, t2, b1});
    }

    method DelGhost(key: Str) returns (code: int)
      requires Valid() && Arc.Locate(State().t1, key) == |State().t1| && Arc.Locate(State().t2, key) == |State().t2|
      modifies b1, b2, b1.nodes, b2.nodes
      ensures Valid() && All() <= old(All())
      ensures State() == Arc.Del(old(State()), key) && code == if Arc.Knows(old(State()), key) then 0 else -1
    {
      var node;
      ghost var i;
      node, i := Find(b1, key);
      if node != null {
        DropB1(node, i);
        return 0;
      }
      node, i := Find(b2, key);
      if node != null {
        DropB2(node, i);
        return 0;
      }
      return -1;
    }

    /** `arc_del` */
    method Del(key: Str) returns (code: int)
      requires Valid()
      modifies t1, t2, b1, b2, t1.nodes, t2.nodes, b1.nodes, b2.nodes
      ensures Valid() && All() <= old(All())
      ensures State() == Arc.Del(old(State()), key) && code == if Arc.Knows(old(State()), key) then 0 else -1
    {
      hide Valid, LruList.Valid, Items, Without;
      var node;
      ghost var i;
      node, i := Find(t1, key);
      if node != null {
        DropT1(node, i);
        return 0;
      }
      node, i := Find(t2, key);
      if node != null {
        DropT2(node, i);
        return 0;
      }
      code := DelGhost(key);
    }
  }
}
