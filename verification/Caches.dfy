/** The three cache structures as owners of their nodes, and the manager that holds all three. */
module Caches {
  import opened Strings
  import opened Pairs
  import opened CacheBag
  import C = CacheManager
  import LruSpec
  import LruCache
  import LfuHeap
  import LfuCache
  import Arc
  import ArcCache

  class LruPolicy {
    const cache: LruCache.LruCache
    ghost var pairs: seq<Pair>
    ghost var Repr: set<object>

    ghost predicate Valid()
      reads this, Repr
    {
      && this !in Repr && cache.list in Repr && (forall n :: n in cache.list.nodes ==> n in Repr)
      && cache.Valid() && cache.Contents() == pairs
    }

    constructor (max: nat)
      requires max > 0
      ensures Valid() && fresh(Repr) && pairs == [] && cache.capacity == max
    {
      cache := new LruCache.LruCache(max);
      new;
      pairs := [];
      Repr := {cache.list};
    }

    ghost method Adopt()
      requires cache.Valid() && this !in Repr && cache.list in Repr
      modifies this`pairs, this`Repr
      ensures Valid() && pairs == cache.Contents() && Repr == old(Repr) + set n | n in cache.list.nodes
    {
      pairs := cache.Contents();
      Repr := Repr + set n | n in cache.list.nodes;
    }

    method Get(key: Str) returns (r: Option<Str>)
      requires Valid()
      modifies this, Repr
      ensures Valid() && fresh(Repr - old(Repr)) && (pairs, r) == LruSpec.Get(old(pairs), key)
    {
      r := cache.Get(key);
      Adopt();
    }

    method Add(key: Str, value: Str)
      requires Valid()
      modifies this, Repr
      ensures Valid() && fresh(Repr - old(Repr)) && pairs == LruSpec.Add(old(pairs), cache.capacity, (key, value))
    {
      cache.Add(key, value);
      Adopt();
    }

    method Del(key: Str) returns (code: int)
      requires Valid()
      modifies this, Repr
      ensures Valid() && fresh(Repr - old(Repr)) && pairs == LruSpec.Del(old(pairs), key)
      ensures code == if Find(old(pairs), key) < |old(pairs)| then 0 else -2
    {
      code := cache.Del(key);
      Adopt();
    }
  }

  class LfuPolicy {
    const cache: LfuCache.LfuCache
    ghost var heap: LfuHeap.Heap
    ghost var Repr: set<object>

    ghost predicate Valid()
      reads this, Repr
    {
      this !in Repr && cache in Repr && cache.nodes in Repr && cache.Valid() && cache.Items() == heap
    }

    constructor (max: nat)
      ensures Valid() && fresh(Repr) && heap == [] && cache.capacity == max
    {
      cache := new LfuCache.LfuCache(max);
      new;
      heap := [];
      Repr := {cache, cache.nodes};
    }

    method Get(key: Str) returns (r: Option<Str>)
      requires Valid()
      modifies this, Repr
      ensures Valid() && Repr == old(Repr)
      ensures var h, i := old(heap), LfuHeap.Slot(old(heap), key);
        if i <= |h| then heap == LfuHeap.Hit(h, i) && r == Some(h[i - 1].value) else heap == h && r == None
    {
      r := cache.Get(key);
      heap := cache.Items();
    }

    method Add(key: Str, value: Str)
      requires Valid()
      modifies this, Repr
      ensures Valid() && Repr == old(Repr)
      ensures heap == LfuHeap.Insert(old(heap), cache.capacity, LfuHeap.Item(key, value, 1))
    {
      cache.Add(key, value);
      heap := cache.Items();
    }

    method Del(key: Str) returns (code: int)
      requires Valid()
      modifies this, Repr
      ensures Valid() && Repr == old(Repr) && heap == LfuHeap.Del(old(heap), key)
      ensures code == if LfuHeap.Slot(old(heap), key) <= |old(heap)| then 0 else -2
    {
      code := cache.Del(key);
      heap := cache.Items();
    }
  }

  class ArcPolicy {
    const cache: ArcCache.ArcCache
    ghost var state: Arc.State
    ghost var Repr: set<object>

    ghost predicate Valid()
      reads this, Repr
    {
      && this !in Repr && cache in Repr && cache.t1 in Repr && cache.t2 in Repr && cache.b1 in Repr && cache.b2 in Repr
      && (forall n :: n in cache.t1.nodes ==> n in Repr) && (forall n :: n in cache.t2.nodes ==> n in Repr)
      && (forall n :: n in cache.b1.nodes ==> n in Repr) && (forall n :: n in cache.b2.nodes ==> n in Repr)
      && cache.Valid() && cache.State() == state
    }

    constructor (max: nat)
      ensures Valid() && fresh(Repr) && state == Arc.Start(max)
    {
      cache := new ArcCache.ArcCache(max);
      new;
      assert cache.All() == {};
      state := cache.State();
      Repr := {cache, cache.t1, cache.t2, cache.b1, cache.b2};
    }

    ghost method Adopt()
      requires cache.Valid() && this !in Repr
      requires cache in Repr && cache.t1 in Repr && cache.t2 in Repr && cache.b1 in Repr && cache.b2 in Repr
      modifies this`state, this`Repr
      ensures Valid() && state == cache.State() && Repr == old(Repr) + cache.All()
    {
      state := cache.State();
      Repr := Repr + cache.All();
    }

    method Get(key: Str) returns (r: Option<Str>)
      requires Valid()
      modifies this, Repr
      ensures Valid() && fresh(Repr - old(Repr)) && (state, r) == Arc.Get(old(state), key)
    {
      hide ArcCache.ArcCache.Valid, Arc.Get, Arc.Add, Arc.Del;
      assert cache.All() <= Repr;
      r := cache.Get(key);
      assert cache.All() <= Repr;
      Adopt();
    }

    method Add(key: Str, value: Str)
      requires Valid()
      modifies this, Repr
      ensures Valid() && fresh(Repr - old(Repr)) && state == Arc.Add(old(state), key, value)
    {
      hide ArcCache.ArcCache.Valid, Arc.Get, Arc.Add, Arc.Del;
      cache.Add(key, value);
      Adopt();
    }

    method Del(key: Str) returns (code: int)
      requires Valid()
      modifies this, Repr
      ensures Valid() && fresh(Repr - old(Repr)) && state == Arc.Del(old(state), key)
      ensures code == if Arc.Knows(old(state), key) then 0 else -1
    {
      hide ArcCache.ArcCache.Valid, Arc.Get, Arc.Add, Arc.Del;
      assert cache.All() <= Repr;
      code := cache.Del(key);
      assert cache.All() <= Repr;
      Adopt();
    }
  }

  /** The global cache: three structures, of which the current policy uses one. */
  class CacheHub {
    const max: nat
    var policy: C.Policy
    const lru: LruPolicy
    const lfu: LfuPolicy
    const arc: ArcPolicy
    ghost var Repr: set<object>

    /** Every structure keeps to its own footprint. */
    ghost predicate Apart()
      reads lru, lfu, arc
    {
      && lru !in lfu.Repr + arc.Repr && lfu !in lru.Repr + arc.Repr && arc !in lru.Repr + lfu.Repr
      && lru.Repr !! lfu.Repr && lru.Repr !! arc.Repr && lfu.Repr !! arc.Repr
    }

    ghost predicate Valid()
      reads this, Repr
    {
      && max > 0 && max == lru.cache.capacity && max == lfu.cache.capacity
      && this !in Repr && lru in Repr && lfu in Repr && arc in Repr
      && lru.Repr <= Repr && lfu.Repr <= Repr && arc.Repr <= Repr && Apart()
      && lru.Valid() && lfu.Valid() && arc.Valid()
    }

    ghost function Manager(): C.Manager
      reads this, lru, lfu, arc
    {
      C.Manager(policy, max, lru.pairs, lfu.heap, arc.state)
    }

    /** `kvs_cache_init` */
    constructor (size: int)
      ensures Valid() && fresh(Repr) && Manager() == C.Init(size)
    {
      hide LruPolicy.Valid, LfuPolicy.Valid, ArcPolicy.Valid;
      var n := if size > 0 then size else 1000;
      var x := new LruPolicy(n);
      var y := new LfuPolicy(n);
      assert x.Repr + {x} !! y.Repr + {y};
      var z := new ArcPolicy(n);
      assert x.Repr + y.Repr + {x, y} !! z.Repr + {z};
      max, policy, lru, lfu, arc := n, C.Lru, x, y, z;
      Repr := x.Repr + y.Repr + z.Repr + {x, y, z};
    }

    /** `kvs_cache_get` */
    method Get(key: Str) returns (r: Option<Str>)
      requires Valid()
      modifies this, Repr
      ensures Valid() && fresh(Repr - old(Repr)) && (Manager(), r) == C.Get(old(Manager()), key)
    {
      hide LruPolicy.Valid, LfuPolicy.Valid, ArcPolicy.Valid;
      match policy
      case Lru =>
        r := lru.Get(key);
        Repr := Repr + lru.Repr;
      case Lfu =>
        r := lfu.Get(key);
      case Arc =>
        r := arc.Get(key);
        Repr := Repr + arc.Repr;
    }

    /** `kvs_cache_lru_add` */
    method Add(key: Str, value: Str)
      requires Valid()
      modifies this, Repr
      ensures Valid() && fresh(Repr - old(Repr)) && Manager() == C.Add(old(Manager()), key, value)
    {
      hide LruPolicy.Valid, LfuPolicy.Valid, ArcPolicy.Valid;
      match policy
      case Lru =>
        lru.Add(key, value);
        Repr := Repr + lru.Repr;
      case Lfu =>
        lfu.Add(key, value);
      case Arc =>
        arc.Add(key, value);
        Repr := Repr + arc.Repr;
    }

    /** `kvs_cache_del` */
    method Del(key: Str) returns (code: int)
      requires Valid()
      modifies this, Repr
      ensures Valid() && fresh(Repr - old(Repr)) && Manager() == C.Del(old(Manager()), key)
      ensures code == C.DelCode(old(Manager()), key)
    {
      hide LruPolicy.Valid, LfuPolicy.Valid, ArcPolicy.Valid;
      match policy
      case Lru =>
        code := lru.Del(key);
        Repr := Repr + lru.Repr;
      case Lfu =>
        code := lfu.Del(key);
      case Arc =>
        code := arc.Del(key);
        Repr := Repr + arc.Repr;
    }

    /** A change of policy. */
    method SetPolicy(p: C.Policy)
      requires Valid()
      modifies this
      ensures Valid() && Repr == old(Repr) && Manager() == C.SetPolicy(old(Manager()), p)
    {
      hide LruPolicy.Valid, LfuPolicy.Valid, ArcPolicy.Valid;
      policy := p;
    }
  }
}
