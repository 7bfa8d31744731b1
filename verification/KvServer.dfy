/** The dispatch over the real structures: four engines behind one cache of three policies. */
module KvServer {
  import opened Strings
  import opened CacheBag
  import Store
  import Srv = Server
  import C = CacheManager
  import E = Engines
  import B = Bank
  import P = Caches
  import HashSpec

  /** A command for the hash engine has a slot. */
  predicate Placed(r: Srv.Request) {
    r.Do? ==> Srv.Placed(r.engine, r.command.key)
  }

  lemma CacheParts(c: P.CacheHub)
    requires c.Valid()
    ensures c.lru in c.Repr && c.lfu in c.Repr && c.arc in c.Repr
  {
  }

  class KvServer {
    const bank: B.Bank
    const cache: P.CacheHub
    ghost var Repr: set<object>

    ghost predicate Valid()
      reads this, Repr
    {
      && this !in Repr && bank in Repr && cache in Repr && bank.Repr <= Repr && cache.Repr <= Repr
      && bank !in cache.Repr && cache !in bank.Repr && bank.Repr !! cache.Repr
      && bank.Valid() && cache.Valid()
    }

    ghost function State(): Srv.State
      reads bank.table, bank.tree, bank.hash, bank.skip, cache, cache.lru, cache.lfu, cache.arc
    {
      Srv.State(bank.Stores(), cache.Manager())
    }

    constructor (size: int)
      ensures Valid() && fresh(Repr) && State() == Srv.State(Srv.NOTHING, C.Init(size))
    {
      hide B.Bank.Valid, P.CacheHub.Valid;
      var b := new B.Bank();
      var c := new P.CacheHub(size);
      assert b.Repr + {b} !! c.Repr + {c};
      bank, cache := b, c;
      Repr := b.Repr + c.Repr + {b, c};
    }

    /** One command on one engine; the cache is not touched. */
    method Execute(e: Srv.Engine, c: Store.Command) returns (reply: Store.Reply)
      requires Valid() && (e.Hash? ==> HashSpec.Hashable(c.key))
      modifies this, Repr
      ensures Valid() && fresh(Repr - old(Repr))
      ensures State().cache == old(State()).cache
      ensures State().stores == Srv.PlainNext(old(State()).stores, Srv.Do(e, c))
      ensures reply == Srv.PlainReply(old(State()).stores, Srv.Do(e, c))
    {
      hide B.Bank.Valid, P.CacheHub.Valid, Srv.PlainNext, Srv.PlainReply;
      CacheParts(cache);
      ghost var before := cache.Manager();
      reply := bank.Do(e, c);
      assert cache.Manager() == before;
      Repr := Repr + bank.Repr;
    }

    method Find(key: Str) returns (r: Option<Str>)
      requires Valid()
      modifies this, Repr
      ensures Valid() && fresh(Repr - old(Repr))
      ensures State().stores == old(State()).stores && (State().cache, r) == C.Get(old(State()).cache, key)
    {
      hide P.CacheHub.Valid, E.ArrayEngine.Valid, E.TreeEngine.Valid, E.HashEngine.Valid, E.SkipEngine.Valid, C.Get;
      r := cache.Get(key);
      Repr := Repr + cache.Repr;
    }

    method Keep(key: Str, value: Str)
      requires Valid()
      modifies this, Repr
      ensures Valid() && fresh(Repr - old(Repr)) && State().cache.max > 0
      ensures State() == old(State()).(cache := C.Add(old(State()).cache, key, value))
    {
      hide E.ArrayEngine.Valid, E.TreeEngine.Valid, E.HashEngine.Valid, E.SkipEngine.Valid;
      hide P.LruPolicy.Valid, P.LfuPolicy.Valid, P.ArcPolicy.Valid, C.Add;
      cache.Add(key, value);
      Repr := Repr + cache.Repr;
    }

    method Invalidate(key: Str)
      requires Valid()
      modifies this, Repr
      ensures Valid() && fresh(Repr - old(Repr))
      ensures State() == old(State()).(cache := C.Del(old(State()).cache, key))
    {
      hide P.CacheHub.Valid, E.ArrayEngine.Valid, E.TreeEngine.Valid, E.HashEngine.Valid, E.SkipEngine.Valid, C.Del;
      var _ := cache.Del(key);
      Repr := Repr + cache.Repr;
    }

    method Switch(p: C.Policy)
      requires Valid()
      modifies this, Repr
      ensures Valid() && fresh(Repr - old(Repr))
      ensures State() == old(State()).(cache := C.SetPolicy(old(State()).cache, p))
    {
      hide P.CacheHub.Valid, E.ArrayEngine.Valid, E.TreeEngine.Valid, E.HashEngine.Valid, E.SkipEngine.Valid;
      cache.SetPolicy(p);
    }

    lemma Sized()
      requires Valid()
      ensures State().cache.max > 0
    {
    }

    /** The Get cases: the cache first, then the engine, whose answer is cached. */
    method Read(e: Srv.Engine, key: Str) returns (reply: Store.Reply)
      requires Valid() && (e.Hash? ==> HashSpec.Hashable(key))
      modifies this, Repr
      ensures Valid() && fresh(Repr - old(Repr)) && (State(), reply) == Srv.Read(old(State()), e, key)
    {
      hide Valid, C.Get, C.Add;
      Sized();
      ghost var was := State();
      var hit := Find(key);
      if hit.Some? {
        return Store.Value(hit.value);
      }
      reply := Execute(e, Store.Get(key));
      GetPlain(was.stores, e, key);
      if reply.Value? {
        Keep(key, reply.value);
      }
    }

    /** One request of `kvs_filter_protocol`. */
    method Process(r: Srv.Request) returns (reply: Store.Reply)
      requires Valid() && Placed(r)
      modifies this, Repr
      ensures Valid() && fresh(Repr - old(Repr)) && (State(), reply) == Srv.Handle(old(State()), r)
    {
      hide Valid, C.Get, C.Add, C.Del, Srv.Read;
      Sized();
      match r
      case Policy(p) =>
        Switch(p);
        return Store.Code(0);
      case Do(e, c) =>
        if c.Get? {
          reply := Read(e, c.key);
          return;
        }
        reply := Execute(e, c);
        if (c.Del? || c.Mod?) && reply == Store.Code(0) {
          Invalidate(c.key);
        }
    }

    /** A whole session over the linked structures: if every key keeps to its engine and policies change
        only when safe, every reply is that of a server without a cache. */
    method Session(rs: seq<Srv.Request>, ghost owner: Str -> Srv.Engine) returns (replies: seq<Store.Reply>)
      requires Valid() && forall r :: r in rs ==> Placed(r)
      modifies this, Repr
      ensures Valid() && fresh(Repr - old(Repr))
      ensures State() == Srv.Run(old(State()), rs) && replies == Srv.Replies(old(State()), rs)
      ensures old(Srv.Good(State(), owner)) && old(Srv.AllAllowed(State(), rs, owner))
        ==> (replies == Srv.PlainReplies(old(State()).stores, rs)
          && State().stores == Srv.PlainRun(old(State()).stores, rs))
    {
      hide Valid, Srv.Handle;
      Sized();
      ghost var was := State();
      replies := [];
      for i := 0 to |rs|
        invariant Valid() && fresh(Repr - old(Repr)) && State() == Srv.Run(was, rs[..i])
        invariant replies == Srv.Replies(was, rs[..i])
      {
        var reply := Process(rs[i]);
        replies := replies + [reply];
        assert rs[..i + 1][..i] == rs[..i];
      }
      assert rs[..|rs|] == rs;
      if Srv.Good(was, owner) && Srv.AllAllowed(was, rs, owner) {
        Srv.Transparency(was, rs, owner);
      }
    }
  }

  /** A Get on its own changes no engine. */
  lemma GetPlain(s: Srv.Stores, e: Srv.Engine, key: Str)
    ensures Srv.PlainNext(s, Srv.Do(e, Store.Get(key))) == s
    ensures Srv.PlainReply(s, Srv.Do(e, Store.Get(key))) == Store.ReplyTo(Srv.Of(s, e), Store.Get(key))
  {
  }

  /** From a fresh server on, whatever the policy and the size, the cache cannot be noticed. */
  method Serve(size: int, p: C.Policy, rs: seq<Srv.Request>, ghost owner: Str -> Srv.Engine)
      returns (replies: seq<Store.Reply>)
    requires forall r :: r in rs ==> Placed(r)
    requires Srv.AllAllowed(Srv.State(Srv.NOTHING, C.SetPolicy(C.Init(size), p)), rs, owner)
    ensures replies == Srv.PlainReplies(Srv.NOTHING, rs)
  {
    hide KvServer.Valid, Srv.Run, Srv.Replies, Srv.PlainReplies, Srv.PlainRun, Srv.Good;
    var server := new KvServer(size);
    server.Switch(p);
    Srv.StartGood(Srv.NOTHING, size, p, owner);
    replies := server.Session(rs, owner);
  }
}
