/** The cache manager: three structures side by side, of which the current policy uses one. */
module CacheManager {
  import opened Strings
  import opened Pairs
  import opened CacheBag
  import LruSpec
  import LfuHeap
  import Arc

  datatype Policy = Lru | Lfu | Arc

  datatype Manager = Manager(policy: Policy, max: nat, lru: seq<Pair>, lfu: LfuHeap.Heap, arc: Arc.State)

  /** `kvs_cache_init`: a non-positive size means the default. */
  function Init(size: int): Manager {
    var max := if size > 0 then size else 1000;
    Manager(Lru, max, [], [], Arc.Start(max))
  }

  /** `kvs_cache_get` */
  function Get(m: Manager, key: Str): (r: (Manager, Option<Str>))
    ensures r.0.max == m.max && r.0.policy == m.policy
  {
    match m.policy
    case Lru => var (s, r) := LruSpec.Get(m.lru, key); (m.(lru := s), r)
    case Lfu =>
      var i := LfuHeap.Slot(m.lfu, key);
      if i <= |m.lfu| then (m.(lfu := LfuHeap.Hit(m.lfu, i)), Some(m.lfu[i - 1].value)) else (m, None)
    case Arc => var (a, r) := Arc.Get(m.arc, key); (m.(arc := a), r)
  }

  /** `kvs_cache_lru_add` */
  function Add(m: Manager, key: Str, value: Str): Manager
    requires m.max > 0
  {
    match m.policy
    case Lru => m.(lru := LruSpec.Add(m.lru, m.max, (key, value)))
    case Lfu => m.(lfu := LfuHeap.Insert(m.lfu, m.max, LfuHeap.Item(key, value, 1)))
    case Arc => m.(arc := Arc.Add(m.arc, key, value))
  }

  /** `kvs_cache_del`: only the structure of the current policy is touched. */
  function Del(m: Manager, key: Str): Manager {
    match m.policy
    case Lru => m.(lru := LruSpec.Del(m.lru, key))
    case Lfu => m.(lfu := LfuHeap.Del(m.lfu, key))
    case Arc => m.(arc := Arc.Del(m.arc, key))
  }

  /** Its return code, which says -2 for a key LRU or LFU does not hold and -1 for one ARC does not know. */
  function DelCode(m: Manager, key: Str): int {
    match m.policy
    case Lru => if Find(m.lru, key) < |m.lru| then 0 else -2
    case Lfu => if LfuHeap.Slot(m.lfu, key) <= |m.lfu| then 0 else -2
    case Arc => if Arc.Knows(m.arc, key) then 0 else -1
  }

  function SetPolicy(m: Manager, p: Policy): Manager {
    m.(policy := p)
  }

  // ---- the three policies behave alike

  /** The values the structure of policy `p` holds. */
  function HeldBy(m: Manager, p: Policy): Bag {
    match p
    case Lru => multiset(m.lru)
    case Lfu => LfuHeap.Held(m.lfu)
    case Arc => Arc.Held(m.arc)
  }

  function Held(m: Manager): Bag {
    HeldBy(m, m.policy)
  }

  /** The sizes of the three structures; those of ARC are another matter. */
  predicate Fits(m: Manager) {
    |m.lru| <= m.max && |m.lfu| <= m.max && m.arc.max == m.max
  }

  /** The structure of the current policy has as many entries as it should have at most. */
  predicate Full(m: Manager) {
    match m.policy
    case Lru => |m.lru| >= m.max
    case Lfu => |m.lfu| >= m.max
    case Arc => |m.arc.t1| + |m.arc.t2| >= m.max
  }

  lemma OperationsFit(m: Manager, key: Str, value: Str)
    requires m.max > 0 && Fits(m)
    ensures Fits(Get(m, key).0) && Fits(Add(m, key, value)) && Fits(Del(m, key))
  {
    match m.policy
    case Lru =>
    case Lfu =>
      var i := LfuHeap.Slot(m.lfu, key);
      if i <= |m.lfu| {
        LfuHeap.HitHolds(m.lfu, i);
        LfuHeap.RemoveHolds(m.lfu, i);
      }
      LfuHeap.InsertFits(m.lfu, m.max, LfuHeap.Item(key, value, 1));
    case Arc =>
  }

  ghost predicate Inv(m: Manager) {
    && m.max > 0 && Fits(m) && Functional(multiset(m.lru)) && Functional(LfuHeap.Held(m.lfu))
    && Arc.Inv(m.arc)
  }

  /** Structures of other policies and the settings stay as they are. */
  predicate Others(m: Manager, m': Manager) {
    && m'.policy == m.policy && m'.max == m.max
    && (m.policy != Lru ==> m'.lru == m.lru) && (m.policy != Lfu ==> m'.lfu == m.lfu)
    && (m.policy != Arc ==> m'.arc == m.arc)
  }

  lemma InitEmpty(size: int)
    ensures Inv(Init(size)) && forall p :: HeldBy(Init(size), p) == multiset{}
    ensures Init(size).policy == Lru && Init(size).max == if size > 0 then size else 1000
  {
    assert LfuHeap.Bindings([]) == [];
  }

  /** A lookup answers exactly from what the current structure holds, and changes no binding. */
  lemma GetLaw(m: Manager, key: Str)
    requires Inv(m)
    ensures var (m', r) := Get(m, key);
      Answers(Held(m), key, r) && Held(m') == Held(m) && Inv(m') && Others(m, m')
  {
    hide LruSpec.Get, LfuHeap.Hit, LfuHeap.Held, Arc.Get, Arc.Inv, Functional, Answers, Fits, Add, Del;
    OperationsFit(m, key, []);
    match m.policy
    case Lru => LruSpec.GetHolds(m.lru, key);
    case Lfu =>
      LfuHeap.SlotAnswers(m.lfu, key);
      var i := LfuHeap.Slot(m.lfu, key);
      if i <= |m.lfu| {
        LfuHeap.HitHolds(m.lfu, i);
      }
    case Arc =>
      Arc.GetAnswers(m.arc, key);
      Arc.GetKeeps(m.arc, key);
  }

  /** Adding after a miss puts the binding in and invents nothing. While there is room nothing is lost, and
      otherwise one binding at most. */
  lemma AddLaw(m: Manager, key: Str, value: Str)
    requires Inv(m) && !Has(Held(m), key)
    ensures var m' := Add(m, key, value);
      Stocks(Held(m), (key, value), Held(m'), Full(m))
      && Admits(Held(m), (key, value), Held(m')) && Inv(m') && Others(m, m')
  {
    hide Stocks, Fits, Full, Admits, LruSpec.Add, LfuHeap.Insert, LfuHeap.Held, Arc.Add, Get, Del;
    var m' := Add(m, key, value);
    OperationsFit(m, key, value);
    AddStocks(m, key, value);
    StocksAdmits(Held(m), (key, value), Held(m'), Full(m));
    match m.policy
    case Lru => AdmitsFunctional(Held(m), (key, value), Held(m'));
    case Lfu => AdmitsFunctional(Held(m), (key, value), Held(m'));
    case Arc => Arc.AddKeeps(m.arc, key, value);
  }

  lemma AddStocks(m: Manager, key: Str, value: Str)
    requires m.max > 0 && Fits(m)
    ensures Stocks(Held(m), (key, value), Held(Add(m, key, value)), Full(m))
  {
    hide Stocks, LruSpec.Add, LfuHeap.Insert, LfuHeap.Held, Arc.Add, Arc.Held;
    match m.policy
    case Lru => LruSpec.AddStocks(m.lru, m.max, (key, value));
    case Lfu => LfuHeap.InsertStocks(m.lfu, m.max, LfuHeap.Item(key, value, 1));
    case Arc => Arc.AddStocks(m.arc, key, value);
  }

  /** Deleting leaves nothing under the key in the current structure. */
  lemma DelLaw(m: Manager, key: Str)
    requires Inv(m)
    ensures var m' := Del(m, key); Purges(Held(m), key, Held(m')) && Inv(m') && Others(m, m')
  {
    hide LruSpec.Del, LfuHeap.Del, LfuHeap.Held, Arc.Del, Arc.Inv, Functional, Purges, Fits, Add, Get;
    var m' := Del(m, key);
    OperationsFit(m, key, []);
    match m.policy
    case Lru =>
      LruSpec.DelHolds(m.lru, key);
      PurgesFunctional(Held(m), key, Held(m'));
    case Lfu =>
      LfuHeap.DelHolds(m.lfu, key);
      PurgesFunctional(Held(m), key, Held(m'));
    case Arc => Arc.DelKeeps(m.arc, key);
  }

  /** Whatever the state, each operation keeps to the structure of the current policy. */
  lemma Elsewhere(m: Manager, key: Str, value: Str)
    requires m.max > 0
    ensures Others(m, Get(m, key).0) && Others(m, Add(m, key, value)) && Others(m, Del(m, key))
  {
    hide LruSpec.Get, LruSpec.Add, LruSpec.Del, LfuHeap.Hit, LfuHeap.Insert, LfuHeap.Del, Arc.Get, Arc.Add, Arc.Del;
  }

  lemma OthersHeld(m: Manager, m': Manager, p: Policy)
    requires Others(m, m') && m.policy != p
    ensures HeldBy(m', p) == HeldBy(m, p) && m'.policy == m.policy && m'.max == m.max
  {
  }
}
