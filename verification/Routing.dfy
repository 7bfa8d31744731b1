/** What clients can see of the shared cache: exactly when replies are those of a server without one. */
module Routing {
  import opened Strings
  import opened CacheBag
  import opened Server
  import Store
  import C = CacheManager
  import LruSpec
  import LfuHeap
  import Arc

  // ---- a stale binding can be seen

  /** Every command goes to the owner of its key, where the key can be placed; policies stay. */
  ghost predicate Routed(rs: seq<Request>, owner: Str -> Engine) {
    forall r :: r in rs ==> r.Do? && r.engine == owner(r.command.key) && Placed(r.engine, r.command.key)
  }

  /** Whatever routed commands come, no reply gives the cache away. */
  ghost predicate Unnoticed(s: State, owner: Str -> Engine)
    requires s.cache.max > 0
  {
    forall rs :: Routed(rs, owner) ==> Replies(s, rs) == PlainReplies(s.stores, rs)
  }

  lemma RoutedAllowed(s: State, rs: seq<Request>, owner: Str -> Engine)
    requires s.cache.max > 0 && Routed(rs, owner)
    ensures AllAllowed(s, rs, owner)
  {
    forall n | 0 <= n < |rs| ensures Allowed(Run(s, rs[..n]), rs[n], owner) {
      assert rs[n] in rs;
    }
  }

  /** The replies to a single request. */
  lemma OneReply(s: State, r: Request)
    requires s.cache.max > 0
    ensures Replies(s, [r]) == [Handle(s, r).1] && PlainReplies(s.stores, [r]) == [PlainReply(s.stores, r)]
  {
    assert [r][..0] == [];
    assert Run(s, []) == s && Replies(s, []) == [];
    assert PlainRun(s.stores, []) == s.stores && PlainReplies(s.stores, []) == [];
  }

  /** One Get of the key of a stale binding shows it. */
  lemma StaleSeen(s: State, owner: Str -> Engine, k: Str, v: Str)
    requires C.Inv(s.cache) && (k, v) in C.Held(s.cache) && Placed(owner(k), k)
    requires k !in Of(s.stores, owner(k)) || Of(s.stores, owner(k))[k] != v
    ensures !Unnoticed(s, owner)
  {
    var r := Do(owner(k), Store.Get(k));
    ReadExact(s, owner(k), k);
    OneReply(s, r);
    assert Routed([r], owner);
    assert Replies(s, [r])[0] != PlainReplies(s.stores, [r])[0];
  }

  /** In any state: no run of routed commands can notice the cache if and only if what it holds agrees
      with the engines. */
  lemma CoherentExact(s: State, owner: Str -> Engine)
    requires C.Inv(s.cache)
    ensures Unnoticed(s, owner) <==> Coherent(s, owner)
  {
    if Coherent(s, owner) {
      forall rs | Routed(rs, owner) ensures Replies(s, rs) == PlainReplies(s.stores, rs) {
        RoutedAllowed(s, rs, owner);
        Transparency(s, rs, owner);
      }
    } else {
      var p :| p in C.Held(s.cache) && Placed(owner(p.0), p.0)
        && (p.0 !in Of(s.stores, owner(p.0)) || Of(s.stores, owner(p.0))[p.0] != p.1);
      StaleSeen(s, owner, p.0, p.1);
    }
  }

  /** A change of policy cannot be noticed if and only if what the new policy has cached agrees with the
      engines. */
  lemma SwitchExact(s: State, p: C.Policy, owner: Str -> Engine)
    requires C.Inv(s.cache)
    ensures Unnoticed(Handle(s, Policy(p)).0, owner) <==> Agrees(C.HeldBy(s.cache, p), s.stores, owner)
  {
    CoherentExact(Handle(s, Policy(p)).0, owner);
  }

  lemma {:induction false} RunInv(s: State, rs: seq<Request>)
    requires C.Inv(s.cache)
    ensures C.Inv(Run(s, rs).cache)
  {
    if rs != [] {
      RunInv(s, rs[..|rs| - 1]);
      HandleInv(Run(s, rs[..|rs| - 1]), rs[|rs| - 1]);
    }
  }

  lemma ReadInv(s: State, e: Engine, k: Str)
    requires C.Inv(s.cache)
    ensures C.Inv(Read(s, e, k).0.cache)
  {
    C.GetLaw(s.cache, k);
    var (cache, hit) := C.Get(s.cache, k);
    hide C.Get, C.Add, C.Inv, C.Held, C.Others;
    var answer := Store.ReplyTo(Of(s.stores, e), Store.Get(k));
    if hit.None? && answer.Value? {
      C.AddLaw(cache, k, answer.value);
    }
  }

  lemma SwitchInv(m: C.Manager, p: C.Policy)
    requires C.Inv(m)
    ensures C.Inv(C.SetPolicy(m, p))
  {
  }

  /** The cache's own invariants survive every request, allowed or not. */
  lemma HandleInv(s: State, r: Request)
    requires C.Inv(s.cache)
    ensures C.Inv(Handle(s, r).0.cache)
  {
    hide C.Get, C.Del, C.Add, C.Inv, C.Held, C.Others, C.SetPolicy, Read;
    match r
    case Policy(p) => SwitchInv(s.cache, p);
    case Do(e, c) =>
      if c.Get? {
        ReadInv(s, e, c.key);
      } else {
        C.DelLaw(s.cache, c.key);
      }
  }

  /** Changing away from `p`, running any commands and changing back cannot be noticed if and only if
      every binding `p` had cached is what its engine holds after those commands. */
  lemma ReturnExact(s: State, p: C.Policy, q: C.Policy, rs: seq<Request>, owner: Str -> Engine)
    requires C.Inv(s.cache) && s.cache.policy == p && q != p && forall r :: r in rs ==> r.Do?
    ensures var away := Run(Handle(s, Policy(q)).0, rs);
      (Unnoticed(Handle(away, Policy(p)).0, owner) <==> Agrees(C.Held(s.cache), PlainRun(s.stores, rs), owner))
      && (Allowed(away, Policy(p), owner) <==> Agrees(C.Held(s.cache), PlainRun(s.stores, rs), owner))
  {
    var left := Handle(s, Policy(q)).0;
    RunElsewhere(left, rs, p);
    RunStores(left, rs);
    RunInv(left, rs);
    SwitchExact(Run(left, rs), p, owner);
  }

  // ---- which routings are safe

  /** A fresh server under a policy, with room for any number of entries. */
  function Started(size: int, p: C.Policy): State {
    State(NOTHING, C.SetPolicy(C.Init(size), p))
  }

  /** Commands for the engines and keys the clients use. */
  ghost predicate Follows(rs: seq<Request>, uses: (Engine, Str) -> bool) {
    forall r :: r in rs ==> r.Do? && uses(r.engine, r.command.key) && Placed(r.engine, r.command.key)
  }

  /** No key is used on two engines that can both place it. */
  ghost predicate Separate(uses: (Engine, Str) -> bool) {
    forall k, e, f :: uses(e, k) && uses(f, k) && Placed(e, k) && Placed(f, k) ==> e == f
  }

  function OwnerOf(uses: (Engine, Str) -> bool): Str -> Engine {
    k => if uses(Array, k) then Array else if uses(Tree, k) then Tree
         else if uses(Skip, k) then Skip else Hash
  }

  lemma FollowsRouted(rs: seq<Request>, uses: (Engine, Str) -> bool)
    requires Follows(rs, uses) && Separate(uses)
    ensures Routed(rs, OwnerOf(uses))
  {
    forall r | r in rs
      ensures r.Do? && r.engine == OwnerOf(uses)(r.command.key) && Placed(r.engine, r.command.key)
    {
      var k, o := r.command.key, OwnerOf(uses)(r.command.key);
      assert o == r.engine || (uses(o, k) && Placed(o, k));
    }
  }

  lemma FirstLru(max: nat, k: Str, v: Str)
    requires max > 0
    ensures LruSpec.Get([], k) == ([], None) && LruSpec.Add([], max, (k, v)) == [(k, v)]
  {
  }

  lemma FirstLfu(max: nat, k: Str, v: Str)
    requires max > 0
    ensures (k, v) in LfuHeap.Held(LfuHeap.Insert([], max, LfuHeap.Item(k, v, 1)))
  {
    var x := LfuHeap.Item(k, v, 1);
    assert LfuHeap.Insert([], max, x) == [x];
    assert LfuHeap.Bindings([x])[0] == (k, v);
  }

  lemma FirstArc(max: nat, k: Str, v: Str)
    requires max > 0
    ensures Arc.Get(Arc.Start(max), k) == (Arc.Start(max), None)
    ensures (k, v) in Arc.Held(Arc.Add(Arc.Start(max), k, v))
  {
    var a := Arc.Add(Arc.Start(max), k, v);
    assert a.t1 == [Arc.Entry(k, Some(v))];
    Arc.ValuedMembers(a.t1, (k, v));
  }

  /** The first entry of an empty cache is held. */
  lemma FirstEntry(size: int, p: C.Policy, k: Str, v: Str)
    ensures var m := C.SetPolicy(C.Init(size), p);
      C.Get(m, k) == (m, None) && (k, v) in C.Held(C.Add(m, k, v))
  {
    var m := C.SetPolicy(C.Init(size), p);
    hide LruSpec.Get, LruSpec.Add, LfuHeap.Insert, LfuHeap.Hit, LfuHeap.Held, Arc.Get, Arc.Add, Arc.Held, Arc.Start;
    match p
    case Lru => FirstLru(m.max, k, v);
    case Lfu => FirstLfu(m.max, k, v);
    case Arc => FirstArc(m.max, k, v);
  }

  lemma FirstSound(size: int, p: C.Policy, k: Str, v: Str)
    ensures var m := C.SetPolicy(C.Init(size), p); C.Inv(m) && C.Inv(C.Add(m, k, v))
  {
    var m := C.SetPolicy(C.Init(size), p);
    C.InitEmpty(size);
    assert C.Inv(m) && !Has(C.Held(m), k);
    hide C.Inv, C.Add, C.Held;
    C.AddLaw(m, k, v);
  }

  lemma Append(s: State, rs: seq<Request>, r: Request)
    requires s.cache.max > 0
    ensures Run(s, rs + [r]) == Handle(Run(s, rs), r).0
    ensures Replies(s, rs + [r]) == Replies(s, rs) + [Handle(Run(s, rs), r).1]
    ensures PlainRun(s.stores, rs + [r]) == PlainNext(PlainRun(s.stores, rs), r)
    ensures PlainReplies(s.stores, rs + [r])
      == PlainReplies(s.stores, rs) + [PlainReply(PlainRun(s.stores, rs), r)]
  {
    assert (rs + [r])[..|rs|] == rs;
  }

  /** One key set on two engines. */
  function Clash(e: Engine, f: Engine, k: Str, v: Str, w: Str): Stores {
    With(With(NOTHING, e, map[k := v]), f, map[k := w])
  }

  lemma TwoSets(s: State, e: Engine, f: Engine, k: Str, v: Str, w: Str)
    requires e != f && s.cache.max > 0 && s.stores == NOTHING
    ensures var t := Handle(s, Do(e, Store.Set(k, v))).0;
      Handle(t, Do(f, Store.Set(k, w))).0 == s.(stores := Clash(e, f, k, v, w))
  {
  }

  /** Reading the key on the first engine caches its value for the second. */
  lemma ReadCaches(size: int, p: C.Policy, e: Engine, f: Engine, k: Str, v: Str, w: Str)
    requires e != f
    ensures var s := Started(size, p).(stores := Clash(e, f, k, v, w));
      var t := Handle(s, Do(e, Store.Get(k))).0;
      t.stores == s.stores && C.Inv(t.cache) && (k, v) in C.Held(t.cache)
  {
    FirstEntry(size, p, k, v);
    FirstSound(size, p, k, v);
    hide C.Get, C.Add, C.Held, C.Inv;
  }

  function Mixed(e: Engine, f: Engine, k: Str, v: Str, w: Str): seq<Request> {
    [] + [Do(e, Store.Set(k, v))] + [Do(f, Store.Set(k, w))] + [Do(e, Store.Get(k))]
  }

  lemma MixedRun(size: int, p: C.Policy, e: Engine, f: Engine, k: Str, v: Str, w: Str)
    requires e != f
    ensures var s := Started(size, p).(stores := Clash(e, f, k, v, w));
      Run(Started(size, p), Mixed(e, f, k, v, w)) == Handle(s, Do(e, Store.Get(k))).0
      && PlainRun(NOTHING, Mixed(e, f, k, v, w)) == Clash(e, f, k, v, w)
  {
    var s := Started(size, p);
    var a, b, c := Do(e, Store.Set(k, v)), Do(f, Store.Set(k, w)), Do(e, Store.Get(k));
    assert Run(s, []) == s;
    TwoSets(s, e, f, k, v, w);
    RunStores(s, Mixed(e, f, k, v, w));
    Append(s, [], a);
    Append(s, [] + [a], b);
    Append(s, [] + [a] + [b], c);
    ReadCaches(size, p, e, f, k, v, w);
    hide Run, PlainRun, Handle, C.Inv, C.Held;
  }

  /** A key used on any two engines, under any policy: the second one answers with the value of the
      first. */
  lemma SharedKeyFails(size: int, p: C.Policy, e: Engine, f: Engine, k: Str, v: Str, w: Str)
    requires e != f && v != w
    ensures var rs, r := Mixed(e, f, k, v, w), Do(f, Store.Get(k));
      Handle(Run(Started(size, p), rs), r).1 == Store.Value(v) && PlainReply(PlainRun(NOTHING, rs), r) == Store.Value(w)
  {
    MixedRun(size, p, e, f, k, v, w);
    ReadCaches(size, p, e, f, k, v, w);
    var t := Run(Started(size, p), Mixed(e, f, k, v, w));
    hide Run, PlainRun, C.Inv, Mixed;
    CachedAnswer(t, f, k, v);
  }

  /** A read of a name that has a value cached is answered with that value, whatever engine it asks. */
  lemma CachedAnswer(s: State, e: Engine, k: Str, v: Str)
    requires C.Inv(s.cache) && (k, v) in C.Held(s.cache)
    ensures Handle(s, Do(e, Store.Get(k))).1 == Store.Value(v)
  {
    C.GetLaw(s.cache, k);
    ReadReply(s, e, k);
    hide C.Get, C.Inv;
    assert C.Get(s.cache, k).1 == Some(v);
  }

  /** Whatever commands follow the uses, no reply gives the cache away. */
  ghost predicate Hidden(size: int, p: C.Policy, uses: (Engine, Str) -> bool) {
    forall rs :: Follows(rs, uses) ==> Replies(Started(size, p), rs) == PlainReplies(NOTHING, rs)
  }

  lemma LastDiffers(a: seq<Store.Reply>, x: Store.Reply, b: seq<Store.Reply>, y: Store.Reply)
    requires x != y
    ensures a + [x] != b + [y]
  {
    assert (a + [x])[|a|] == x && (b + [y])[|b|] == y;
  }

  lemma MixedFollows(uses: (Engine, Str) -> bool, e: Engine, f: Engine, k: Str, v: Str, w: Str)
    requires uses(e, k) && uses(f, k) && Placed(e, k) && Placed(f, k)
    ensures Follows(Mixed(e, f, k, v, w) + [Do(f, Store.Get(k))], uses)
  {
  }

  /** The run in which the clash shows ends with different replies. */
  lemma MixedReplies(size: int, p: C.Policy, e: Engine, f: Engine, k: Str, v: Str, w: Str)
    requires e != f && v != w
    ensures var rs := Mixed(e, f, k, v, w) + [Do(f, Store.Get(k))];
      Replies(Started(size, p), rs) != PlainReplies(NOTHING, rs)
  {
    hide Run, Replies, PlainRun, PlainReplies, Handle, PlainReply, Mixed;
    var s, rs, r := Started(size, p), Mixed(e, f, k, v, w), Do(f, Store.Get(k));
    SharedKeyFails(size, p, e, f, k, v, w);
    Append(s, rs, r);
    LastDiffers(Replies(s, rs), Store.Value(v), PlainReplies(NOTHING, rs), Store.Value(w));
  }

  lemma ClashSeen(size: int, p: C.Policy, uses: (Engine, Str) -> bool, e: Engine, f: Engine, k: Str)
    requires e != f && uses(e, k) && uses(f, k) && Placed(e, k) && Placed(f, k)
    ensures !Hidden(size, p, uses)
  {
    hide Replies, PlainReplies, Mixed, Follows;
    MixedFollows(uses, e, f, k, [1], [2]);
    MixedReplies(size, p, e, f, k, [1], [2]);
  }

  /** Which uses of keys and engines are safe, under every policy and size: exactly those in which no key
      is used on two engines that can both place it. */
  lemma RoutingExact(size: int, p: C.Policy, uses: (Engine, Str) -> bool)
    ensures Hidden(size, p, uses) <==> Separate(uses)
  {
    if Separate(uses) {
      forall rs | Follows(rs, uses) ensures Replies(Started(size, p), rs) == PlainReplies(NOTHING, rs) {
        StartGood(NOTHING, size, p, OwnerOf(uses));
        FollowsRouted(rs, uses);
        RoutedAllowed(Started(size, p), rs, OwnerOf(uses));
        Transparency(Started(size, p), rs, OwnerOf(uses));
      }
    } else {
      var k, e, f :| uses(e, k) && uses(f, k) && Placed(e, k) && Placed(f, k) && e != f;
      ClashSeen(size, p, uses, e, f, k);
    }
  }
}
