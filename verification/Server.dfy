/** The command dispatch: four engines behind one read-through cache. */
module Server {
  import opened Strings
  import opened CacheBag
  import Store
  import C = CacheManager
  import A = ArraySpec
  import H = HashSpec

  datatype Engine = Array | Tree | Hash | Skip

  /** The contents of the four engines. */
  datatype Stores = Stores(table: Store.Map, tree: Store.Map, hash: Store.Map, skip: Store.Map)

  function Of(s: Stores, e: Engine): Store.Map {
    match e
    case Array => s.table
    case Tree => s.tree
    case Hash => s.hash
    case Skip => s.skip
  }

  function With(s: Stores, e: Engine, m: Store.Map): Stores {
    match e
    case Array => s.(table := m)
    case Tree => s.(tree := m)
    case Hash => s.(hash := m)
    case Skip => s.(skip := m)
  }

  /** A full array refuses every Set, even of a key it has. */
  predicate Refused(e: Engine, m: Store.Map, c: Store.Command) {
    e.Array? && A.Refuses(m, c)
  }

  function Answer(e: Engine, m: Store.Map, c: Store.Command): Store.Reply {
    if Refused(e, m, c) then Store.Code(-1) else Store.ReplyTo(m, c)
  }

  function Effect(e: Engine, m: Store.Map, c: Store.Command): Store.Map {
    if Refused(e, m, c) then m else Store.Next(m, c)
  }

  /** A command for one engine, its key already namespaced, or a policy change. */
  datatype Request = Do(engine: Engine, command: Store.Command) | Policy(policy: C.Policy)

  // ---- without a cache

  function PlainNext(s: Stores, r: Request): Stores {
    if r.Policy? then s else With(s, r.engine, Effect(r.engine, Of(s, r.engine), r.command))
  }

  function PlainReply(s: Stores, r: Request): Store.Reply {
    if r.Policy? then Store.Code(0) else Answer(r.engine, Of(s, r.engine), r.command)
  }

  // ---- with the cache

  datatype State = State(stores: Stores, cache: C.Manager)

  /** The Get cases of `kvs_filter_protocol`: the cache first, then the engine, whose answer is cached. */
  function Read(s: State, e: Engine, key: Str): (State, Store.Reply)
    requires s.cache.max > 0
  {
    var (cache, hit) := C.Get(s.cache, key);
    match hit
    case Some(v) => (s.(cache := cache), Store.Value(v))
    case None =>
      var r := Store.ReplyTo(Of(s.stores, e), Store.Get(key));
      if r.Value? then (s.(cache := C.Add(cache, key, r.value)), r) else (s.(cache := cache), r)
  }

  /** One request: a successful Del or Mod also drops the key from the cache. */
  function Handle(s: State, r: Request): (State, Store.Reply)
    requires s.cache.max > 0
  {
    match r
    case Policy(p) => (s.(cache := C.SetPolicy(s.cache, p)), Store.Code(0))
    case Do(e, c) =>
      if c.Get? then Read(s, e, c.key)
      else
        var code := Answer(e, Of(s.stores, e), c);
        var stores := With(s.stores, e, Effect(e, Of(s.stores, e), c));
        if (c.Del? || c.Mod?) && code == Store.Code(0) then (State(stores, C.Del(s.cache, c.key)), code)
        else (State(stores, s.cache), code)
  }

  // ---- coherence

  /** The hash engine takes only keys that have a slot. */
  predicate Placed(e: Engine, key: Str) {
    e.Hash? ==> H.Hashable(key)
  }

  /** The bindings agree with the engines that own their keys, as far as those can be asked for them. */
  ghost predicate Agrees(b: Bag, s: Stores, owner: Str -> Engine) {
    forall p :: p in b && Placed(owner(p.0), p.0) ==> p.0 in Of(s, owner(p.0)) && Of(s, owner(p.0))[p.0] == p.1
  }

  /** Everything the current policy has cached agrees with the engine that owns its key. */
  ghost predicate Coherent(s: State, owner: Str -> Engine) {
    Agrees(C.Held(s.cache), s.stores, owner)
  }

  ghost predicate Good(s: State, owner: Str -> Engine) {
    C.Inv(s.cache) && Coherent(s, owner)
  }

  /** A command goes to the owner of its key, and one for the hash engine has a slot; a policy change
      goes to a structure whose bindings are not stale. */
  ghost predicate Allowed(s: State, r: Request, owner: Str -> Engine) {
    match r
    case Policy(p) => Agrees(C.HeldBy(s.cache, p), s.stores, owner)
    case Do(e, c) => e == owner(c.key) && Placed(e, c.key)
  }

  lemma ReadLaw(s: State, e: Engine, key: Str, owner: Str -> Engine)
    requires Good(s, owner) && e == owner(key) && Placed(e, key)
    ensures var (s', r) := Read(s, e, key);
      Good(s', owner) && s'.stores == s.stores
      && r == Store.ReplyTo(Of(s.stores, e), Store.Get(key))
  {
    C.GetLaw(s.cache, key);
    var (cache, hit) := C.Get(s.cache, key);
    var r := Store.ReplyTo(Of(s.stores, e), Store.Get(key));
    match hit
    case Some(v) => assert (key, v) in C.Held(s.cache);
    case None =>
      if r.Value? {
        C.AddLaw(cache, key, r.value);
        var after := C.Add(cache, key, r.value);
        forall p | p in C.Held(after) ensures p in C.Held(cache) || p == (key, r.value) {
        }
      }
  }

  /** A command touches no binding but that of its key. */
  lemma EffectElsewhere(s: Stores, e: Engine, c: Store.Command, f: Engine, key: Str)
    requires key != c.key
    ensures var m, m' := Of(s, f), Of(With(s, e, Effect(e, Of(s, e), c)), f);
      (key in m' <==> key in m) && (key in m ==> m'[key] == m[key])
  {
  }

  /** If nothing is cached under the key of a write, coherence survives it. */
  lemma WriteCoherent(s: State, s': State, e: Engine, c: Store.Command, owner: Str -> Engine)
    requires Coherent(s, owner) && s'.stores == With(s.stores, e, Effect(e, Of(s.stores, e), c))
    requires C.Held(s'.cache) <= C.Held(s.cache)
    requires Effect(e, Of(s.stores, e), c) == Of(s.stores, e) || !Has(C.Held(s'.cache), c.key)
    ensures Coherent(s', owner)
  {
    forall p | p in C.Held(s'.cache) && Placed(owner(p.0), p.0)
      ensures p.0 in Of(s'.stores, owner(p.0)) && Of(s'.stores, owner(p.0))[p.0] == p.1
    {
      assert p in C.Held(s.cache);
      if p.0 != c.key {
        EffectElsewhere(s.stores, e, c, owner(p.0), p.0);
      }
    }
  }

  /** A Del or Mod that succeeds also empties the cache under its key. */
  lemma InvalidateLaw(s: State, e: Engine, c: Store.Command, owner: Str -> Engine)
    requires Good(s, owner) && (c.Del? || c.Mod?) && c.key in Of(s.stores, e)
    ensures var s' := Handle(s, Do(e, c)).0;
      Good(s', owner) && s'.stores == PlainNext(s.stores, Do(e, c))
    ensures Handle(s, Do(e, c)).1 == PlainReply(s.stores, Do(e, c))
  {
    C.DelLaw(s.cache, c.key);
    WriteCoherent(s, Handle(s, Do(e, c)).0, e, c, owner);
  }

  /** A command that leaves the cache alone changes at most the binding of an uncached key. */
  lemma PassLaw(s: State, e: Engine, c: Store.Command, owner: Str -> Engine)
    requires Good(s, owner) && e == owner(c.key) && Placed(e, c.key) && !c.Get?
    requires (c.Del? || c.Mod?) ==> c.key !in Of(s.stores, e)
    ensures var s' := Handle(s, Do(e, c)).0;
      Good(s', owner) && s'.stores == PlainNext(s.stores, Do(e, c))
    ensures Handle(s, Do(e, c)).1 == PlainReply(s.stores, Do(e, c))
  {
    var m := Of(s.stores, e);
    assert c.key in m || !Has(C.Held(s.cache), c.key);
    if c.Del? {
      assert m - {c.key} == m;
    }
    WriteCoherent(s, Handle(s, Do(e, c)).0, e, c, owner);
  }

  /** An allowed request keeps coherence and is answered as if there were no cache. */
  lemma HandleLaw(s: State, r: Request, owner: Str -> Engine)
    requires Good(s, owner) && Allowed(s, r, owner)
    ensures var (s', reply) := Handle(s, r);
      Good(s', owner) && s'.stores == PlainNext(s.stores, r)
      && reply == PlainReply(s.stores, r)
  {
    if r.Do? {
      if r.command.Get? {
        ReadLaw(s, r.engine, r.command.key, owner);
      } else if (r.command.Del? || r.command.Mod?) && r.command.key in Of(s.stores, r.engine) {
        InvalidateLaw(s, r.engine, r.command, owner);
      } else {
        PassLaw(s, r.engine, r.command, owner);
      }
    }
  }

  /** What a command leaves in the cache: a read that finds a value leaves it there, so that the next read is
      a hit; a Del or Mod that succeeds takes out the bindings of its key and no others; all other commands
      leave the cache alone. */
  lemma HandleCaches(s: State, e: Engine, c: Store.Command)
    requires C.Inv(s.cache)
    ensures var (s', r) := Handle(s, Do(e, c));
      if c.Get? then r.Value? ==> (c.key, r.value) in C.Held(s'.cache) && C.Get(s'.cache, c.key).1 == Some(r.value)
      else if (c.Del? || c.Mod?) && r == Store.Code(0) then Purges(C.Held(s.cache), c.key, C.Held(s'.cache))
      else s'.cache == s.cache
  {
    hide C.Get, C.Add, C.Del, C.Inv, C.Held, C.Full, Purges;
    if c.Get? {
      ReadCaches(s, e, c.key);
    } else {
      C.DelLaw(s.cache, c.key);
    }
  }

  lemma ReadCaches(s: State, e: Engine, key: Str)
    requires C.Inv(s.cache)
    ensures var (s', r) := Read(s, e, key);
      r.Value? ==> (key, r.value) in C.Held(s'.cache) && C.Get(s'.cache, key).1 == Some(r.value)
  {
    assert s.cache.max > 0;
    hide C.Get, C.Add, C.Inv, C.Held, C.Full;
    var (cache, hit) := C.Get(s.cache, key);
    var r := Store.ReplyTo(Of(s.stores, e), Store.Get(key));
    C.GetLaw(s.cache, key);
    if hit.Some? {
      HeldHits(cache, key, hit.value);
    } else if r.Value? {
      C.AddLaw(cache, key, r.value);
      HeldHits(C.Add(cache, key, r.value), key, r.value);
    }
  }

  lemma HeldHits(m: C.Manager, key: Str, v: Str)
    requires C.Inv(m) && (key, v) in C.Held(m)
    ensures C.Get(m, key).1 == Some(v)
  {
    C.GetLaw(m, key);
    InvFunctional(m);
    hide C.Get, C.Inv, C.Held;
  }

  lemma InvFunctional(m: C.Manager)
    requires C.Inv(m)
    ensures Functional(C.Held(m))
  {
  }

  // ---- runs

  function Run(s: State, rs: seq<Request>): (t: State)
    requires s.cache.max > 0
    ensures t.cache.max > 0
  {
    if rs == [] then s else
      var t := Run(s, rs[..|rs| - 1]);
      HandleMax(t, rs[|rs| - 1]);
      Handle(t, rs[|rs| - 1]).0
  }

  lemma HandleMax(s: State, r: Request)
    requires s.cache.max > 0
    ensures Handle(s, r).0.cache.max == s.cache.max
  {
  }

  function Replies(s: State, rs: seq<Request>): seq<Store.Reply>
    requires s.cache.max > 0
  {
    if rs == [] then []
    else Replies(s, rs[..|rs| - 1]) + [Handle(Run(s, rs[..|rs| - 1]), rs[|rs| - 1]).1]
  }

  function PlainRun(s: Stores, rs: seq<Request>): Stores {
    if rs == [] then s else PlainNext(PlainRun(s, rs[..|rs| - 1]), rs[|rs| - 1])
  }

  function PlainReplies(s: Stores, rs: seq<Request>): seq<Store.Reply> {
    if rs == [] then []
    else PlainReplies(s, rs[..|rs| - 1]) + [PlainReply(PlainRun(s, rs[..|rs| - 1]), rs[|rs| - 1])]
  }

  /** Every request is allowed when its turn comes. */
  ghost predicate AllAllowed(s: State, rs: seq<Request>, owner: Str -> Engine)
    requires s.cache.max > 0
  {
    forall n :: 0 <= n < |rs| ==> Allowed(Run(s, rs[..n]), rs[n], owner)
  }

  /** Cache transparency: under LRU, LFU or ARC, and across changes between them, every reply in every
      run equals the reply of a server without a cache. */
  lemma {:induction false} Transparency(s: State, rs: seq<Request>, owner: Str -> Engine)
    requires Good(s, owner) && AllAllowed(s, rs, owner)
    ensures Replies(s, rs) == PlainReplies(s.stores, rs)
    ensures Run(s, rs).stores == PlainRun(s.stores, rs) && Good(Run(s, rs), owner)
  {
    if rs != [] {
      var init := rs[..|rs| - 1];
      assert forall n :: 0 <= n < |init| ==> init[n] == rs[n] && init[..n] == rs[..n];
      Transparency(s, init, owner);
      HandleLaw(Run(s, init), rs[|rs| - 1], owner);
    }
  }

  /** A server starts well under each policy, whatever its engines have been loaded with. */
  lemma StartGood(stores: Stores, size: int, p: C.Policy, owner: Str -> Engine)
    ensures Good(State(stores, C.SetPolicy(C.Init(size), p)), owner)
  {
    C.InitEmpty(size);
  }

  /** So a fresh server may change to any policy at once, and is transparent from then on. */
  lemma FirstSwitch(stores: Stores, size: int, p: C.Policy, rs: seq<Request>, owner: Str -> Engine)
    requires AllAllowed(State(stores, C.SetPolicy(C.Init(size), p)), rs, owner)
    ensures Allowed(State(stores, C.Init(size)), Policy(p), owner)
    ensures Handle(State(stores, C.Init(size)), Policy(p)).0 == State(stores, C.SetPolicy(C.Init(size), p))
    ensures Replies(State(stores, C.SetPolicy(C.Init(size), p)), rs) == PlainReplies(stores, rs)
  {
    C.InitEmpty(size);
    StartGood(stores, size, p, owner);
    Transparency(State(stores, C.SetPolicy(C.Init(size), p)), rs, owner);
  }

  // ---- why the hypotheses are needed

  /** The engines never notice the cache. */
  lemma {:induction false} RunStores(s: State, rs: seq<Request>)
    requires s.cache.max > 0
    ensures Run(s, rs).stores == PlainRun(s.stores, rs)
  {
    if rs != [] {
      RunStores(s, rs[..|rs| - 1]);
    }
  }

  lemma ReadElsewhere(s: State, e: Engine, key: Str, p: C.Policy)
    requires s.cache.max > 0 && s.cache.policy != p
    ensures var m := Read(s, e, key).0.cache; C.HeldBy(m, p) == C.HeldBy(s.cache, p) && m.policy == s.cache.policy
  {
    hide C.Get, C.Add, C.HeldBy, C.Others;
    var m := C.Get(s.cache, key).0;
    var r := Store.ReplyTo(Of(s.stores, e), Store.Get(key));
    C.Elsewhere(s.cache, key, []);
    C.OthersHeld(s.cache, m, p);
    if r.Value? {
      C.Elsewhere(m, key, r.value);
      C.OthersHeld(m, C.Add(m, key, r.value), p);
    }
  }

  /** No request touches the structure of a policy that is not current. */
  lemma HandleElsewhere(s: State, r: Request, p: C.Policy)
    requires s.cache.max > 0 && s.cache.policy != p
    ensures C.HeldBy(Handle(s, r).0.cache, p) == C.HeldBy(s.cache, p)
    ensures r.Do? ==> Handle(s, r).0.cache.policy == s.cache.policy
  {
    if r.Do? {
      hide C.Get, C.Add, C.Del, C.HeldBy, C.Others, Read;
      ReadElsewhere(s, r.engine, r.command.key, p);
      C.Elsewhere(s.cache, r.command.key, []);
      C.OthersHeld(s.cache, C.Del(s.cache, r.command.key), p);
    }
  }

  lemma {:induction false} RunElsewhere(s: State, rs: seq<Request>, p: C.Policy)
    requires s.cache.max > 0 && s.cache.policy != p && forall r :: r in rs ==> r.Do?
    ensures C.HeldBy(Run(s, rs).cache, p) == C.HeldBy(s.cache, p) && Run(s, rs).cache.policy == s.cache.policy
  {
    if rs != [] {
      var init, r := rs[..|rs| - 1], rs[|rs| - 1];
      assert r in rs && forall q :: q in init ==> q in rs;
      RunElsewhere(s, init, p);
      HandleElsewhere(Run(s, init), r, p);
    }
  }

  /** Exactly when one Get is answered as without a cache, in any state whatsoever: the value cached
      under its name, if any, must be the value the engine holds. */
  lemma ReadExact(s: State, e: Engine, key: Str)
    requires C.Inv(s.cache)
    ensures Read(s, e, key).1 == Store.ReplyTo(Of(s.stores, e), Store.Get(key))
      <==> forall v :: (key, v) in C.Held(s.cache) ==> key in Of(s.stores, e) && Of(s.stores, e)[key] == v
  {
    C.GetLaw(s.cache, key);
    var hit := C.Get(s.cache, key).1;
    ReadReply(s, e, key);
    if hit.Some? {
      OnlyValue(C.Held(s.cache), key, hit.value);
    } else {
      NoValue(C.Held(s.cache), key);
    }
  }

  lemma ReadReply(s: State, e: Engine, key: Str)
    requires s.cache.max > 0
    ensures var hit := C.Get(s.cache, key).1;
      Read(s, e, key).1 == if hit.Some? then Store.Value(hit.value) else Store.ReplyTo(Of(s.stores, e), Store.Get(key))
  {
  }

  lemma OnlyValue(b: Bag, key: Str, v: Str)
    requires Functional(b) && (key, v) in b
    ensures forall w :: (key, w) in b <==> w == v
  {
  }

  lemma NoValue(b: Bag, key: Str)
    requires !Has(b, key)
    ensures forall w :: (key, w) !in b
  {
    assert forall p :: p in b ==> p.0 != key;
  }

  const NOTHING := Stores(map[], map[], map[], map[])

  function Fresh(): State {
    State(NOTHING, C.Init(1000))
  }

  /** A policy switch between caching and invalidating: after switching back the old value returns. */
  lemma PolicySwitchFails(k: Str, v: Str, w: Str)
    requires v != w
    ensures var stores := Stores(map[k := v], map[], map[], map[]);
      var s := State(stores, C.Init(1000));
      var read := Handle(s, Do(Array, Store.Get(k))).0;
      var away := Handle(read, Policy(C.Lfu)).0;
      var written := Handle(away, Do(Array, Store.Mod(k, w))).0;
      var back := Handle(written, Policy(C.Lru)).0;
      Of(back.stores, Array) == map[k := w] && Handle(back, Do(Array, Store.Get(k))).1 == Store.Value(v)
  {
    var s := State(Stores(map[k := v], map[], map[], map[]), C.Init(1000));
    var read := Handle(s, Do(Array, Store.Get(k))).0;
    assert read.cache.lru == [(k, v)];
    assert read.cache.lfu == [];
  }
}
