/** The vector index in place, over any vectors and any distance between them. */
module VectorIndex {
  import opened Strings
  import opened VectorShape

  const MAX_ELEMENTS := 100000
  const EF_SEARCH := 128

  class VectorIndex<V> {
    const dist: (V, V) -> real
    const nodes: array<VectorNode?<V>>
    var size: nat
    var deletedCount: int
    var count: int
    var maxLevel: nat
    /** The nodes in insertion order, and the chain of each level. */
    ghost var all: Chain<V>
    ghost var chains: seq<Chain<V>>

    ghost function Links(): Links<V>
      reads this`all, all`forward
    {
      map x | x in all :: x.forward
    }

    /** The array holds the nodes, each under its own id. */
    ghost predicate Filed()
      reads this`all, this`size, nodes
    {
      && nodes.Length == MAX_ELEMENTS && size == |all| <= MAX_ELEMENTS && Distinct(all)
      && (forall i :: 0 <= i < size ==> nodes[i] == all[i] && all[i].id == i)
    }

    ghost predicate Shaped()
      reads this, nodes, all`forward
    {
      && Filed() && (forall i :: 0 <= i < |all| ==> all[i].level <= maxLevel)
      && (all != [] ==> Woven(all, chains, all[0], 0, Links()))
    }

    method LinkAfter(prev: VectorNode<V>, n: VectorNode<V>, l: nat)
      requires prev in all && n in all && prev != n && l < |prev.forward| && l < |n.forward|
      modifies prev`forward, n`forward
      ensures Spliced(old(Links()), prev, n, l, Links())
    {
      n.forward := n.forward[l := prev.forward[l]];
      prev.forward := prev.forward[l := n];
    }

    /** Along the chain the nodes come strictly nearer to `n` up to position `j`, and the next one is no nearer. */
    ghost predicate Stops(c: Chain<V>, n: VectorNode<V>, j: nat) {
      && j < |c|
      && (forall i :: 0 <= i < j ==> dist(n.vector, c[i + 1].vector) < dist(n.vector, c[i].vector))
      && (j + 1 < |c| ==> dist(n.vector, c[j].vector) <= dist(n.vector, c[j + 1].vector))
    }

    /** The walk of one level of `insert_hnsw`: the node behind which the new one goes is the one before the
        nearest that the walk reaches, or the first. */
    method Place(n: VectorNode<V>, l: nat, curr: VectorNode<V>)
        returns (prev: VectorNode<V>, ghost p: nat, ghost j: nat)
      requires l < |chains| && Woven(all, chains, n, l + 1, Links()) && curr == all[0]
      ensures Links() == old(Links()) && p < |chains[l]| && prev == chains[l][p]
      ensures Stops(chains[l], n, j) && p == if j == 0 then 0 else j - 1
    {
      ghost var c := chains[l];
      var before: VectorNode?<V> := null;
      var candidate := curr;
      j := 0;
      var best := dist(n.vector, candidate.vector);
      assert Links()[c[0]][l] == At(c, 1);
      while candidate.forward[l] != null
        invariant j < |c| && candidate == c[j] && l < |candidate.forward| && candidate.forward[l] == At(c, j + 1)
        invariant if j == 0 then before == null else before == c[j - 1]
        invariant best == dist(n.vector, c[j].vector)
        invariant forall i :: 0 <= i < j ==> dist(n.vector, c[i + 1].vector) < dist(n.vector, c[i].vector)
        decreases |c| - j
      {
        var next := candidate.forward[l];
        var d := dist(n.vector, next.vector);
        if d >= best {
          break;
        }
        assert Links()[c[j + 1]][l] == At(c, j + 2);
        before, candidate, best, j := candidate, next, d, j + 1;
      }
      if before == null {
        return candidate, 0, j;
      }
      return before, j - 1, j;
    }

    ghost function Flags(): Marks<V>
      reads this`all, all`deleted
    {
      map x | x in all :: x.deleted
    }

    /** The live nodes in insertion order. */
    ghost function Live(): Chain<V>
      reads this`all, all`deleted
    {
      Living(all, Flags())
    }

    /** One live node per key, and the books balance. */
    ghost predicate Valid()
      reads this, nodes, all`forward, all`deleted
    {
      Shaped() && OneEach(Live()) && count == |Live()| && deletedCount == size - |Live()|
    }

    /** `kvs_vector_create` */
    constructor (dist: (V, V) -> real)
      ensures Valid() && Live() == [] && all == [] && this.dist == dist && fresh(nodes)
    {
      this.dist := dist;
      nodes := new VectorNode?<V>[MAX_ELEMENTS](_ => null);
      size, deletedCount, maxLevel, count, all, chains := 0, 0, 0, 0, [], [];
    }

    /** The node enters the array. */
    method File(n: VectorNode<V>)
      requires Filed() && n !in all && size < MAX_ELEMENTS && n.id == size
      modifies this`size, this`all, nodes
      ensures Filed() && all == old(all) + [n] && size == old(size) + 1
      ensures Links() == old(Links())[n := n.forward] && Flags() == old(Flags())[n := n.deleted]
    {
      AppendDistinct(all, n);
      nodes[size] := n;
      size := size + 1;
      all := all + [n];
    }

    /** The new node is where the walk along the chain has put it. */
    ghost predicate Entered(c: Chain<V>, c': Chain<V>, n: VectorNode<V>) {
      exists j: nat :: Stops(c, n, j) && c' == Inserted(c, if j == 0 then 1 else j, n)
    }

    /** On its levels from `from` on the new node has entered; the other levels are as they were. */
    ghost predicate EnteredFrom(cs: seq<Chain<V>>, cs': seq<Chain<V>>, n: VectorNode<V>, from: nat) {
      |cs'| == |cs| && forall l :: 0 <= l < |cs| ==>
        if from <= l <= n.level then Entered(cs[l], cs'[l], n) else cs'[l] == cs[l]
    }

    /** The loop over the levels in `insert_hnsw`. */
    method Weave(n: VectorNode<V>)
      requires Filed() && all != [] && n in all && n != all[0] && |n.forward| == n.level + 1
      requires maxLevel >= all[0].level && Woven(all, chains, n, maxLevel + 1, Links())
      modifies this`chains, all`forward
      ensures Filed() && Woven(all, chains, n, 0, Links()) && Flags() == old(Flags())
      ensures EnteredFrom(old(chains), chains, n, 0)
    {
      var curr := nodes[0];
      var level := maxLevel + 1;
      while level > 0
        invariant 0 <= level <= maxLevel + 1 && Woven(all, chains, n, level, Links())
        invariant |n.forward| == n.level + 1 && Flags() == old(Flags()) && Filed()
        invariant EnteredFrom(old(chains), chains, n, level)
      {
        level := level - 1;
        if level > n.level || level > curr.level {
          WovenSkip(all, chains, n, level, Links());
        } else {
          Thread(n, level, curr);
        }
      }
    }

    /** One level of it. */
    method Thread(n: VectorNode<V>, l: nat, curr: VectorNode<V>)
      requires l < |chains| && Woven(all, chains, n, l + 1, Links()) && curr == all[0]
      requires n in all && l <= n.level
      modifies this`chains, all`forward
      ensures Woven(all, chains, n, l, Links()) && |n.forward| == n.level + 1 && Flags() == old(Flags())
      ensures Entered(old(chains[l]), chains[l], n) && chains == old(chains)[l := chains[l]]
    {
      var prev;
      ghost var p, j;
      prev, p, j := Place(n, l, curr);
      InChain(n, l, p);
      LinkAfter(prev, n, l);
      WovenStep(all, chains, n, l, old(Links()), p, Links());
      chains := chains[l := Inserted(chains[l], p + 1, n)];
    }

    lemma InChain(n: VectorNode<V>, l: nat, p: nat)
      requires l < |chains| && Woven(all, chains, n, l + 1, Links()) && n in all && l <= n.level && p < |chains[l]|
      ensures var x := chains[l][p];
        x in all && x != n && l < |x.forward| && |n.forward| == n.level + 1
    {
      assert chains[l][p] in chains[l];
      assert Links()[chains[l][p]][l] == At(chains[l], p + 1);
      assert |Links()[n]| == n.level + 1;
    }

    /** The first node of all. */
    method Begin(n: VectorNode<V>)
      requires Filed() && all == [n] && n.forward == seq(n.level + 1, _ => null)
      modifies this`maxLevel, this`chains
      ensures Shaped()
    {
      maxLevel := n.level;
      chains := seq(n.level + 1, _ => [n]);
      WovenFirst(n, Links());
    }

    /** A later node. */
    method Join(n: VectorNode<V>, ghost was: Chain<V>, ghost m: Links<V>)
      requires Filed() && was != [] && all == was + [n] && n !in was && n.forward == seq(n.level + 1, _ => null)
      requires (forall i :: 0 <= i < |was| ==> was[i].level <= maxLevel) && Woven(was, chains, was[0], 0, m)
      requires forall x :: x in was ==> x in m && x.forward == m[x]
      modifies this`maxLevel, this`chains, all`forward
      ensures Shaped() && Flags() == old(Flags()) && EnteredFrom(old(chains), chains, n, 0)
    {
      hide Threads, EnteredFrom;
      if n.level > maxLevel {
        maxLevel := n.level;
      }
      assert was[0].level <= maxLevel;
      WovenNew(was, chains, was[0], n, maxLevel + 1, m, Links());
      Weave(n);
      WovenAny(all, chains, n, all[0], Links());
    }

    /** `insert_hnsw` */
    method Insert(n: VectorNode<V>) returns (code: int)
      requires Shaped() && n !in all && n.id == size && n.forward == seq(n.level + 1, _ => null)
      modifies this`size, this`all, this`maxLevel, this`chains, nodes, all`forward, n`forward
      ensures Shaped() && code == if old(size) < MAX_ELEMENTS then 0 else -1
      ensures all == if code == 0 then old(all) + [n] else old(all)
      ensures Flags() == if code == 0 then old(Flags())[n := n.deleted] else old(Flags())
      ensures code == 0 && old(all) != [] ==> EnteredFrom(old(chains), chains, n, 0)
    {
      if size >= MAX_ELEMENTS {
        return -1;
      }
      ghost var was, m := all, Links();
      File(n);
      if size == 1 {
        Begin(n);
      } else {
        Join(n, was, m);
      }
      return 0;
    }

    // ---- keys

    /** The scan for the live node of a key among the first nodes. */
    method Find(key: Str, limit: nat) returns (i: nat)
      requires Filed() && limit <= size
      ensures Filed() && Links() == old(Links()) && Flags() == old(Flags())
      ensures i <= limit && (i < limit ==> !all[i].deleted && all[i].key == key)
      ensures forall j :: 0 <= j < i ==> all[j].deleted || all[j].key != key
    {
      i := 0;
      while i < limit
        invariant i <= limit && forall j :: 0 <= j < i ==> all[j].deleted || all[j].key != key
      {
        if !nodes[i].deleted && nodes[i].key == key {
          return;
        }
        i := i + 1;
      }
    }

    method Mark(node: VectorNode<V>)
      requires Filed() && node in all && !node.deleted
      modifies this`deletedCount, this`count, node`deleted
      ensures Filed() && Flags() == old(Flags())[node := true] && Links() == old(Links())
      ensures deletedCount == old(deletedCount) + 1 && count == old(count) - 1
    {
      node.deleted := true;
      deletedCount := deletedCount + 1;
      count := count - 1;
    }

    /** What the scan tells about the live nodes. */
    lemma Known(key: Str, i: nat)
      requires Filed() && i <= size && (i < size ==> !all[i].deleted && all[i].key == key)
      requires forall j :: 0 <= j < i ==> all[j].deleted || all[j].key != key
      ensures i < size ==> all[i] in Live()
      ensures i == size ==> Dropped(Live(), key) == Live() && forall x :: x in Live() ==> x.key != key
    {
      if i < size {
        LivingHas(all, Flags(), all[i]);
      } else {
        LivingNoKey(all, Flags(), key);
        DroppedNone(Live(), key);
      }
    }

    /** `kvs_vector_get`: the live node of a key. */
    method Get(key: Str) returns (node: VectorNode?<V>)
      requires Valid()
      ensures node != null ==> node in Live() && node.key == key
      ensures node == null ==> forall x :: x in Live() ==> x.key != key
    {
      var i := Find(key, size);
      Known(key, i);
      node := if i < size then nodes[i] else null;
    }

    /** `kvs_vector_exist` */
    method Exist(key: Str) returns (code: int)
      requires Valid()
      ensures code == if exists x :: x in Live() && x.key == key then 0 else 1
    {
      var i := Find(key, size);
      Known(key, i);
      code := if i < size then 0 else 1;
    }

    /** `kvs_vector_count` */
    method Count() returns (n: int)
      requires Valid()
      ensures n == |Live()|
    {
      n := size - deletedCount;
    }

    method Strike(i: nat)
      requires Valid() && i < size && !all[i].deleted
      modifies this`deletedCount, this`count, all`deleted
      ensures Valid() && Live() == Dropped(old(Live()), old(all)[i].key) && |Live()| == |old(Live())| - 1
    {
      LivingMarkAt(all, i, Flags());
      DroppedOneEach(Live(), all[i].key);
      Mark(nodes[i]);
    }

    /** `kvs_vector_del` */
    method Del(key: Str) returns (code: int)
      requires Valid()
      modifies this`deletedCount, this`count, all`deleted
      ensures Valid() && Live() == Dropped(old(Live()), key)
      ensures code == if |Live()| == |old(Live())| then -2 else 0
    {
      var i := Find(key, size);
      Known(key, i);
      if i == size {
        return -2;
      }
      Strike(i);
      return 0;
    }

    lemma Replaced(n: VectorNode<V>, was: Chain<V>, i: nat)
      requires Filed() && all == was + [n] && n !in was && !n.deleted && OneEach(Living(was, Flags())) && i <= |was|
      requires i < |was| ==> !was[i].deleted && was[i].key == n.key
      requires forall j :: 0 <= j < i ==> all[j].deleted || all[j].key != n.key
      ensures var live, f' := Living(was, Flags()), if i < |was| then Flags()[was[i] := true] else Flags();
        Living(all, f') == Dropped(live, n.key) + [n] && OneEach(Living(all, f'))
        && |Living(all, f')| == |live| + if i < |was| then 0 else 1
    {
      forall j, k | 0 <= j < k < |was| ensures Apart(was, j, k) {
        assert Apart(all, j, k);
      }
      forall j | 0 <= j < |was| ensures was[j] == all[j] && Dead(Flags(), was[j]) == was[j].deleted {
      }
      ReplaceLive(was, n, Flags(), i);
    }

    method Swap(i: nat)
      requires Filed() && i < size && (i < size - 1 ==> !all[i].deleted)
      modifies this`deletedCount, this`count, all`deleted
      ensures Filed() && Links() == old(Links())
      ensures Flags() == if i < size - 1 then old(Flags())[all[i] := true] else old(Flags())
      ensures deletedCount == old(deletedCount) + if i < size - 1 then 1 else 0
      ensures count == old(count) + if i < size - 1 then 0 else 1
    {
      if i < size - 1 {
        Mark(nodes[i]);
      }
      count := count + 1;
    }

    method Displace(i: nat)
      requires Shaped() && i < size && (i < size - 1 ==> !all[i].deleted)
      modifies this`deletedCount, this`count, all`deleted
      ensures Shaped()
      ensures Flags() == if i < size - 1 then old(Flags())[all[i] := true] else old(Flags())
      ensures deletedCount == old(deletedCount) + if i < size - 1 then 1 else 0
      ensures count == old(count) + if i < size - 1 then 0 else 1
    {
      Swap(i);
    }

    /** The end of `kvs_vector_set`: the old live node of the key gives way to the new one. */
    method Retire(n: VectorNode<V>, ghost was: Chain<V>)
      requires Shaped() && all == was + [n] && n !in was && !n.deleted
      requires OneEach(Living(was, Flags())) && count == |Living(was, Flags())|
      requires deletedCount == |was| - |Living(was, Flags())|
      modifies this`deletedCount, this`count, all`deleted
      ensures Valid() && Live() == Dropped(Living(was, old(Flags())), n.key) + [n]
    {
      hide Woven, Living, OneEach, Dropped;
      var i := Find(n.key, size - 1);
      Replaced(n, was, i);
      Displace(i);
    }

    method Enter(n: VectorNode<V>) returns (code: int)
      requires Valid() && n !in all && n.id == size && n.forward == seq(n.level + 1, _ => null) && !n.deleted
      modifies this, nodes, all, n
      ensures Valid() && code == if old(size) < MAX_ELEMENTS then 0 else -1
      ensures Live() == if code == 0 then Dropped(old(Live()), n.key) + [n] else old(Live())
      ensures all == if code == 0 then old(all) + [n] else old(all)
    {
      hide Woven, Living, OneEach, Dropped;
      ghost var was := all;
      code := Insert(n);
      if code == 0 {
        LivingFrame(was, old(Flags()), Flags());
        Retire(n, was);
      }
    }

    /** `kvs_vector_set` for a parsed vector and any level the random choice may give. */
    method Set(key: Str, vector: V, level: nat) returns (code: int, node: VectorNode<V>)
      requires Valid()
      modifies this, nodes, all
      ensures Valid() && fresh(node) && node.key == key && node.vector == vector && node.level == level
      ensures code == if old(size) < 100000 then 0 else -1
      ensures Live() == if code == 0 then Dropped(old(Live()), key) + [node] else old(Live())
      ensures forall x :: x in all ==> x in old(all) || x == node
    {
      hide Shaped;
      node := new VectorNode<V>(size, vector, level, key);
      code := Enter(node);
    }

    /** Where a node stands on one of its levels; above the first node's level it stands alone. */
    lemma Position(x: VectorNode<V>, l: nat) returns (c: Chain<V>, j: nat)
      requires Shaped() && x in all && l <= x.level
      ensures j < |c| && c[j] == x && forall i :: 0 <= i < |c| ==> c[i] in all
      ensures forall i {:trigger c[i].forward} :: 0 <= i < |c| ==> l < |c[i].forward| && c[i].forward[l] == At(c, i + 1)
    {
      assert |Links()[x]| == x.level + 1;
      if l < |chains| {
        c := chains[l];
        assert x in Linked(all, all[0], 0, l);
        j :| 0 <= j < |c| && c[j] == x;
        forall i | 0 <= i < |c| ensures c[i] in all && l < |c[i].forward| && c[i].forward[l] == At(c, i + 1) {
          assert c[i] in Linked(all, all[0], 0, l);
          assert Links()[c[i]][l] == At(c, i + 1);
        }
      } else {
        c, j := [x], 0;
        assert Links()[x][l] == null;
      }
    }

    lemma LevelChain(l: nat)
      requires Shaped() && size > 0 && l <= all[0].level
      ensures l < |chains| && chains[l] != [] && chains[l][0] == all[0] == nodes[0] && Distinct(chains[l])
      ensures forall x :: x in chains[l] <==> x in all && l <= x.level
      ensures forall i {:trigger chains[l][i].forward} :: 0 <= i < |chains[l]| ==>
        l < |chains[l][i].forward| && chains[l][i].forward[l] == At(chains[l], i + 1)
    {
      var c := chains[l];
      forall x ensures x in c <==> x in all && l <= x.level {
        assert x in c <==> x in Linked(all, all[0], 0, l);
      }
      forall i | 0 <= i < |c| ensures l < |c[i].forward| && c[i].forward[l] == At(c, i + 1) {
        assert c[i] in c;
        assert Links()[c[i]][l] == At(c, i + 1);
      }
    }

    /** Following the links of level `l` from the first node comes to an end and visits each node that
        reaches the level exactly once. */
    method Walk(l: nat) returns (visited: seq<VectorNode<V>>)
      requires Shaped() && size > 0 && l <= all[0].level
      ensures visited != [] && visited[0] == all[0] && Distinct(visited)
      ensures forall x :: x in visited <==> x in all && l <= x.level
    {
      LevelChain(l);
      hide Shaped, Distinct;
      ghost var c := chains[l];
      var node: VectorNode?<V> := nodes[0];
      visited := [];
      ghost var i: nat := 0;
      while node != null
        invariant i <= |c| && node == At(c, i) && visited == c[..i]
        decreases |c| - i
      {
        assert c[i].forward[l] == At(c, i + 1);
        visited := visited + [node];
        node, i := node.forward[l], i + 1;
      }
      assert c[..i] == c;
    }
  }
}
