/** Namespaces: clients share the engines and the cache under prefixed keys. */
module Namespaces {
  import opened Strings
  import Store
  import Srv = Server

  const COLON: Char := 58
  /** The bytes of "default". */
  const DEFAULT: Str := [100, 101, 102, 97, 117, 108, 116]
  const BUFFER := 256

  function Cut(s: Str, n: nat): Str {
    if |s| > n then s[..n] else s
  }

  /** `make_namespaced_key`: the print into the buffer keeps one byte for the terminator. */
  function Join(ns: Str, key: Str): Str {
    if ns == [] || ns == DEFAULT then key else Cut(ns + [COLON] + key, BUFFER - 1)
  }

  /** A namespace that is written in front of its keys. */
  predicate Named(ns: Str) {
    ns != [] && ns != DEFAULT
  }

  /** The key is written in full; without a name in front it always is. */
  predicate Fits(ns: Str, key: Str) {
    Named(ns) ==> |ns| + 1 + |key| < BUFFER
  }

  /** The joined key belongs to the namespace. */
  predicate Inside(ns: Str, joined: Str) {
    ns + [COLON] <= joined
  }

  /** `b` is `a`, or goes on behind it with a colon. */
  predicate Extends(a: Str, b: Str) {
    Inside(a, b + [COLON])
  }

  predicate Unrelated(a: Str, b: Str) {
    !Extends(a, b) && !Extends(b, a)
  }

  /** Both have a name, and neither goes on behind the other. */
  predicate Apart(a: Str, b: Str) {
    Named(a) && Named(b) && Unrelated(a, b)
  }

  /** Namespaces without a colon are unrelated unless they are the same. */
  lemma PlainUnrelated(a: Str, b: Str)
    requires COLON !in a && COLON !in b
    ensures Unrelated(a, b) <==> a != b
  {
    if Extends(a, b) {
      assert (b + [COLON])[|a|] == COLON && a == (b + [COLON])[..|a|];
    }
    if Extends(b, a) {
      assert (a + [COLON])[|b|] == COLON && b == (a + [COLON])[..|b|];
    }
  }

  lemma InsideUnrelated(a: Str, b: Str, joined: Str)
    requires Inside(a, joined) && Inside(b, joined)
    ensures !Unrelated(a, b)
  {
    if |a| <= |b| {
      assert a + [COLON] == joined[..|a| + 1] == (b + [COLON])[..|a| + 1];
    } else {
      assert b + [COLON] == joined[..|b| + 1] == (a + [COLON])[..|b| + 1];
    }
  }

  /** What a joined key is, byte for byte: the key itself in the empty namespace and in "default", otherwise
      namespace, colon and key, cut to 255 bytes. */
  lemma JoinExact(ns: Str, key: Str)
    ensures Join([], key) == key && Join([100, 101, 102, 97, 117, 108, 116], key) == key
    ensures ns != [] && ns != [100, 101, 102, 97, 117, 108, 116] ==>
      if |ns| + 1 + |key| <= 255 then Join(ns, key) == ns + [58] + key
      else |Join(ns, key)| == 255 && Join(ns, key) <= ns + [58] + key
  {
  }

  /** Within a namespace the joined key determines the key. */
  lemma JoinInjective(ns: Str, k: Str, l: Str)
    requires Fits(ns, k) && Fits(ns, l)
    ensures Join(ns, k) == Join(ns, l) <==> k == l
  {
    if Join(ns, k) == Join(ns, l) && Named(ns) {
      assert k == Join(ns, k)[|ns| + 1..] && l == Join(ns, l)[|ns| + 1..];
    }
  }

  ghost predicate Collide(a: Str, b: Str) {
    exists k, l :: Fits(a, k) && Fits(b, l) && Join(a, k) == Join(b, l)
  }

  lemma ExtendsCollides(a: Str, b: Str)
    requires Named(a) && Named(b) && Fits(b, []) && Extends(a, b)
    ensures Fits(a, (b + [COLON])[|a| + 1..]) && Join(a, (b + [COLON])[|a| + 1..]) == Join(b, [])
  {
    var k := (b + [COLON])[|a| + 1..];
    assert a + [COLON] + k == b + [COLON] == b + [COLON] + [];
  }

  /** The default namespace reaches the keys of every other one. */
  lemma DefaultCollides(a: Str, b: Str)
    requires !Named(a) && Fits(b, [])
    ensures Fits(a, Join(b, [])) && Join(a, Join(b, [])) == Join(b, [])
  {
  }

  /** Two namespaces share a joined key unless both have a name and neither goes on behind the other
      with a colon. */
  lemma CollideExact(a: Str, b: Str)
    requires Fits(a, []) && Fits(b, [])
    ensures Collide(a, b) <==> !Apart(a, b)
  {
    if Apart(a, b) && Collide(a, b) {
      var k, l :| Fits(a, k) && Fits(b, l) && Join(a, k) == Join(b, l);
      InsideUnrelated(a, b, Join(a, k));
    }
    if !Named(a) {
      DefaultCollides(a, b);
    } else if !Named(b) {
      DefaultCollides(b, a);
    } else if Extends(a, b) {
      ExtendsCollides(a, b);
    } else if Extends(b, a) {
      ExtendsCollides(b, a);
    }
  }

  // ---- clients

  datatype Client = First | Second

  /** A command of one client for one engine, its key as the client wrote it. */
  datatype Request = Request(client: Client, engine: Srv.Engine, command: Store.Command)

  datatype Spaces = Spaces(first: Str, second: Str) {
    function Of(c: Client): Str {
      if c.First? then first else second
    }
  }

  function Rekey(c: Store.Command, key: Str): Store.Command {
    match c
    case Set(_, v) => Store.Set(key, v)
    case Get(_) => Store.Get(key)
    case Mod(_, v) => Store.Mod(key, v)
    case Del(_) => Store.Del(key)
    case Exist(_) => Store.Exist(key)
  }

  /** What the server executes. */
  function Joined(sp: Spaces, r: Request): Srv.Request {
    Srv.Do(r.engine, Rekey(r.command, Join(sp.Of(r.client), r.command.key)))
  }

  function JoinedAll(sp: Spaces, rs: seq<Request>): seq<Srv.Request> {
    if rs == [] then [] else JoinedAll(sp, rs[..|rs| - 1]) + [Joined(sp, rs[|rs| - 1])]
  }

  /** The requests of one client. */
  function Own(rs: seq<Request>, who: Client): seq<Request> {
    if rs == [] then []
    else Own(rs[..|rs| - 1], who) + (if rs[|rs| - 1].client == who then [rs[|rs| - 1]] else [])
  }

  /** Of the replies to a run, those to one client. */
  function OwnReplies(replies: seq<Store.Reply>, rs: seq<Request>, who: Client): seq<Store.Reply>
    requires |replies| == |rs|
  {
    if rs == [] then [] else
      OwnReplies(replies[..|rs| - 1], rs[..|rs| - 1], who)
      + (if rs[|rs| - 1].client == who then [replies[|rs| - 1]] else [])
  }

  ghost predicate Same(m: Store.Map, n: Store.Map, k: Str) {
    (k in m <==> k in n) && (k in m ==> m[k] == n[k])
  }

  /** The engines other than the array, whose capacity is shared, agree on a namespace. */
  ghost predicate Agree(s: Srv.Stores, t: Srv.Stores, ns: Str) {
    forall e: Srv.Engine, k :: !e.Array? && Inside(ns, k) ==> Same(Srv.Of(s, e), Srv.Of(t, e), k)
  }

  lemma SameStep(m: Store.Map, n: Store.Map, e: Srv.Engine, c: Store.Command)
    requires !e.Array? && Same(m, n, c.key)
    ensures Srv.Answer(e, m, c) == Srv.Answer(e, n, c)
    ensures Same(Srv.Effect(e, m, c), Srv.Effect(e, n, c), c.key)
  {
  }

  predicate Wellformed(sp: Spaces, r: Request) {
    !r.engine.Array? && Fits(sp.Of(r.client), r.command.key)
  }

  lemma SameAfter(s: Srv.Stores, t: Srv.Stores, e: Srv.Engine, c: Store.Command, f: Srv.Engine, k: Str)
    requires !e.Array? && Same(Srv.Of(s, e), Srv.Of(t, e), c.key) && Same(Srv.Of(s, f), Srv.Of(t, f), k)
    ensures Same(Srv.Of(Srv.PlainNext(s, Srv.Do(e, c)), f), Srv.Of(Srv.PlainNext(t, Srv.Do(e, c)), f), k)
  {
    if k != c.key {
      Srv.EffectElsewhere(s, e, c, f, k);
      Srv.EffectElsewhere(t, e, c, f, k);
    } else if e == f {
      SameStep(Srv.Of(s, e), Srv.Of(t, e), e, c);
    }
  }

  lemma OwnStep(e: Srv.Engine, c: Store.Command, s: Srv.Stores, t: Srv.Stores, ns: Str)
    requires !e.Array? && Inside(ns, c.key) && Agree(s, t, ns)
    ensures Srv.PlainReply(s, Srv.Do(e, c)) == Srv.PlainReply(t, Srv.Do(e, c))
    ensures Agree(Srv.PlainNext(s, Srv.Do(e, c)), Srv.PlainNext(t, Srv.Do(e, c)), ns)
  {
    assert Same(Srv.Of(s, e), Srv.Of(t, e), c.key);
    SameStep(Srv.Of(s, e), Srv.Of(t, e), e, c);
    forall f: Srv.Engine, k | !f.Array? && Inside(ns, k)
      ensures Same(Srv.Of(Srv.PlainNext(s, Srv.Do(e, c)), f), Srv.Of(Srv.PlainNext(t, Srv.Do(e, c)), f), k)
    {
      SameAfter(s, t, e, c, f, k);
    }
  }

  lemma OtherStep(sp: Spaces, r: Request, s: Srv.Stores, t: Srv.Stores, ns: Str)
    requires Wellformed(sp, r) && Named(sp.Of(r.client)) && Unrelated(ns, sp.Of(r.client)) && Agree(s, t, ns)
    ensures Agree(Srv.PlainNext(s, Joined(sp, r)), t, ns)
  {
    var q := Joined(sp, r);
    assert Inside(sp.Of(r.client), q.command.key);
    forall e: Srv.Engine, k | !e.Array? && Inside(ns, k)
      ensures Same(Srv.Of(Srv.PlainNext(s, q), e), Srv.Of(t, e), k)
    {
      assert Same(Srv.Of(s, e), Srv.Of(t, e), k);
      if k == q.command.key {
        InsideUnrelated(ns, sp.Of(r.client), k);
      }
      Srv.EffectElsewhere(s, q.engine, q.command, e, k);
    }
  }

  ghost predicate Separate(sp: Spaces) {
    Apart(sp.first, sp.second)
  }

  lemma PlainAppend(s: Srv.Stores, rs: seq<Srv.Request>, r: Srv.Request)
    ensures Srv.PlainRun(s, rs + [r]) == Srv.PlainNext(Srv.PlainRun(s, rs), r)
    ensures Srv.PlainReplies(s, rs + [r]) == Srv.PlainReplies(s, rs) + [Srv.PlainReply(Srv.PlainRun(s, rs), r)]
  {
    assert (rs + [r])[..|rs|] == rs;
  }

  lemma JoinedAppend(sp: Spaces, rs: seq<Request>, r: Request)
    ensures JoinedAll(sp, rs + [r]) == JoinedAll(sp, rs) + [Joined(sp, r)]
  {
    assert (rs + [r])[..|rs|] == rs;
  }

  lemma OwnAppend(replies: seq<Store.Reply>, x: Store.Reply, rs: seq<Request>, r: Request, who: Client)
    requires |replies| == |rs|
    ensures Own(rs + [r], who) == if r.client == who then Own(rs, who) + [r] else Own(rs, who)
    ensures OwnReplies(replies + [x], rs + [r], who)
      == if r.client == who then OwnReplies(replies, rs, who) + [x] else OwnReplies(replies, rs, who)
  {
    assert (rs + [r])[..|rs|] == rs && (replies + [x])[..|rs|] == replies;
    assert Own(rs, who) + [] == Own(rs, who) && OwnReplies(replies, rs, who) + [] == OwnReplies(replies, rs, who);
  }

  /** The client's replies in the mixed run are those it gets alone, and the engines agree on its keys. */
  ghost predicate Undisturbed(sp: Spaces, s: Srv.Stores, rs: seq<Request>, who: Client) {
    var mixed, alone := JoinedAll(sp, rs), JoinedAll(sp, Own(rs, who));
    && |Srv.PlainReplies(s, mixed)| == |rs|
    && Agree(Srv.PlainRun(s, mixed), Srv.PlainRun(s, alone), sp.Of(who))
    && OwnReplies(Srv.PlainReplies(s, mixed), rs, who) == Srv.PlainReplies(s, alone)
  }

  lemma NextOwn(sp: Spaces, s: Srv.Stores, rs: seq<Request>, r: Request)
    requires Wellformed(sp, r) && Named(sp.Of(r.client)) && Undisturbed(sp, s, rs, r.client)
    ensures Undisturbed(sp, s, rs + [r], r.client)
  {
    var who, q, mixed, alone := r.client, Joined(sp, r), JoinedAll(sp, rs), JoinedAll(sp, Own(rs, r.client));
    assert Inside(sp.Of(who), q.command.key);
    hide Own, OwnReplies, JoinedAll, Srv.PlainRun, Srv.PlainReplies, Agree, Joined;
    OwnStep(r.engine, q.command, Srv.PlainRun(s, mixed), Srv.PlainRun(s, alone), sp.Of(who));
    JoinedAppend(sp, rs, r);
    PlainAppend(s, mixed, q);
    OwnAppend(Srv.PlainReplies(s, mixed), Srv.PlainReply(Srv.PlainRun(s, mixed), q), rs, r, who);
    JoinedAppend(sp, Own(rs, who), r);
    PlainAppend(s, alone, q);
  }

  lemma NextOther(sp: Spaces, s: Srv.Stores, rs: seq<Request>, r: Request, who: Client)
    requires Wellformed(sp, r) && Separate(sp) && r.client != who && Undisturbed(sp, s, rs, who)
    ensures Undisturbed(sp, s, rs + [r], who)
  {
    var q, mixed, alone := Joined(sp, r), JoinedAll(sp, rs), JoinedAll(sp, Own(rs, who));
    OtherStep(sp, r, Srv.PlainRun(s, mixed), Srv.PlainRun(s, alone), sp.Of(who));
    JoinedAppend(sp, rs, r);
    PlainAppend(s, mixed, q);
    OwnAppend(Srv.PlainReplies(s, mixed), Srv.PlainReply(Srv.PlainRun(s, mixed), q), rs, r, who);
  }

  /** Without a cache: a client's replies do not depend on what the other one does in between. */
  lemma {:induction false} PlainNonInterference(sp: Spaces, s: Srv.Stores, rs: seq<Request>, who: Client)
    requires Separate(sp) && forall r :: r in rs ==> Wellformed(sp, r)
    ensures Undisturbed(sp, s, rs, who)
  {
    if rs != [] {
      var init, r := rs[..|rs| - 1], rs[|rs| - 1];
      assert r in rs && (forall q :: q in init ==> q in rs) && rs == init + [r];
      PlainNonInterference(sp, s, init, who);
      if r.client == who {
        NextOwn(sp, s, init, r);
      } else {
        NextOther(sp, s, init, r, who);
      }
    }
  }

  /** The replies to a write and then a read of one tree key, and to the read alone. */
  lemma WriteThenRead(key: Str, v: Str)
    ensures var p, q := Srv.Do(Srv.Tree, Store.Set(key, v)), Srv.Do(Srv.Tree, Store.Get(key));
      Srv.PlainReplies(Srv.NOTHING, [p] + [q]) == [Store.Code(0)] + [Store.Value(v)]
      && Srv.PlainReplies(Srv.NOTHING, [q]) == [Store.ReplyTo(map[], Store.Get(key))]
  {
    var p, q := Srv.Do(Srv.Tree, Store.Set(key, v)), Srv.Do(Srv.Tree, Store.Get(key));
    assert [] + [p] == [p] && [] + [q] == [q];
    PlainAppend(Srv.NOTHING, [], p);
    PlainAppend(Srv.NOTHING, [p], q);
    PlainAppend(Srv.NOTHING, [], q);
  }

  lemma JoinedOne(sp: Spaces, w: Request)
    ensures JoinedAll(sp, [w]) == [Joined(sp, w)]
  {
    assert JoinedAll(sp, []) == [] && [] + [w] == [w];
    hide JoinedAll, Joined;
    JoinedAppend(sp, [], w);
  }

  lemma OwnOne(r: Request, x: Store.Reply)
    ensures Own([r], First) == if r.client == First then [r] else []
    ensures OwnReplies([x], [r], First) == if r.client == First then [x] else []
  {
    assert Own([], First) == [] && OwnReplies([], [], First) == [] && [] + [r] == [r] && [] + [x] == [x];
    hide Own, OwnReplies;
    OwnAppend([], x, [], r, First);
  }

  /** What the first client owns of a write by the second and a read of its own. */
  lemma OwnRead(sp: Spaces, w: Request, g: Request, x: Store.Reply, y: Store.Reply)
    requires w.client == Second && g.client == First
    ensures JoinedAll(sp, [w] + [g]) == [Joined(sp, w)] + [Joined(sp, g)] && JoinedAll(sp, [g]) == [Joined(sp, g)]
    ensures Own([w] + [g], First) == [g] && OwnReplies([x] + [y], [w] + [g], First) == [y]
  {
    hide JoinedAll, Joined, Own, OwnReplies;
    JoinedOne(sp, w);
    JoinedOne(sp, g);
    JoinedAppend(sp, [w], g);
    OwnOne(w, x);
    OwnAppend([x], y, [w], g, First);
    assert [] + [g] == [g] && [] + [y] == [y];
  }

  /** A write under a shared joined key is seen by the other client. */
  lemma Interferes(sp: Spaces, k: Str, l: Str, v: Str)
    requires Fits(sp.first, k) && Fits(sp.second, l) && Join(sp.first, k) == Join(sp.second, l)
    ensures var rs := [Request(Second, Srv.Tree, Store.Set(l, v))] + [Request(First, Srv.Tree, Store.Get(k))];
      (forall r :: r in rs ==> Wellformed(sp, r)) && !Undisturbed(sp, Srv.NOTHING, rs, First)
  {
    var w, g := Request(Second, Srv.Tree, Store.Set(l, v)), Request(First, Srv.Tree, Store.Get(k));
    WriteThenRead(Join(sp.first, k), v);
    OwnRead(sp, w, g, Store.Code(0), Store.Value(v));
    hide Srv.PlainReplies, Srv.PlainRun, JoinedAll, Own, OwnReplies, Agree;
    assert Store.ReplyTo(map[], Store.Get(Join(sp.first, k))) != Store.Value(v);
  }

  ghost predicate NeverDisturbed(sp: Spaces) {
    forall s: Srv.Stores, rs: seq<Request>, who: Client ::
      (forall r :: r in rs ==> Wellformed(sp, r)) ==> Undisturbed(sp, s, rs, who)
  }

  /** Exactly when two clients can never disturb one another. */
  lemma DisturbedExact(sp: Spaces)
    requires Fits(sp.first, []) && Fits(sp.second, [])
    ensures NeverDisturbed(sp) <==> Separate(sp)
  {
    if Separate(sp) {
      forall s: Srv.Stores, rs: seq<Request>, who: Client | forall r :: r in rs ==> Wellformed(sp, r)
        ensures Undisturbed(sp, s, rs, who)
      {
        PlainNonInterference(sp, s, rs, who);
      }
    } else {
      CollideExact(sp.first, sp.second);
      var k, l :| Fits(sp.first, k) && Fits(sp.second, l) && Join(sp.first, k) == Join(sp.second, l);
      Interferes(sp, k, l, []);
    }
  }

  // ---- a namespace is a server of one's own

  /** The command as the client wrote it. */
  function Written(rs: seq<Request>): seq<Srv.Request> {
    if rs == [] then []
    else Written(rs[..|rs| - 1]) + [Srv.Do(rs[|rs| - 1].engine, rs[|rs| - 1].command)]
  }

  /** The bindings under the joined keys in `s` are those under the keys themselves in `t`. */
  ghost predicate Images(s: Srv.Stores, t: Srv.Stores, ns: Str) {
    forall e: Srv.Engine, k :: !e.Array? && Fits(ns, k) ==> Mirrors(Srv.Of(s, e), Join(ns, k), Srv.Of(t, e), k)
  }

  predicate Mirrors(m: Store.Map, j: Str, n: Store.Map, k: Str) {
    (j in m <==> k in n) && (j in m ==> m[j] == n[k])
  }

  lemma MirrorStep(m: Store.Map, j: Str, n: Store.Map, k: Str, e: Srv.Engine, c: Store.Command)
    requires !e.Array? && c.key == k && Mirrors(m, j, n, k)
    ensures Srv.Answer(e, m, Rekey(c, j)) == Srv.Answer(e, n, c)
    ensures Mirrors(Srv.Effect(e, m, Rekey(c, j)), j, Srv.Effect(e, n, c), k)
  {
  }

  /** A command through the namespace does in the shared engines what the written one does in private ones. */
  lemma ImageStep(s: Srv.Stores, t: Srv.Stores, ns: Str, e: Srv.Engine, c: Store.Command)
    requires Images(s, t, ns) && !e.Array? && Fits(ns, c.key)
    ensures var p, q := Srv.Do(e, Rekey(c, Join(ns, c.key))), Srv.Do(e, c);
      Srv.PlainReply(s, p) == Srv.PlainReply(t, q) && Images(Srv.PlainNext(s, p), Srv.PlainNext(t, q), ns)
  {
    var j := Join(ns, c.key);
    var p, q := Srv.Do(e, Rekey(c, j)), Srv.Do(e, c);
    RekeyKey(c, j);
    assert Mirrors(Srv.Of(s, e), j, Srv.Of(t, e), c.key);
    MirrorStep(Srv.Of(s, e), j, Srv.Of(t, e), c.key, e, c);
    forall f: Srv.Engine, k | !f.Array? && Fits(ns, k)
      ensures Mirrors(Srv.Of(Srv.PlainNext(s, p), f), Join(ns, k), Srv.Of(Srv.PlainNext(t, q), f), k)
    {
      assert Mirrors(Srv.Of(s, f), Join(ns, k), Srv.Of(t, f), k);
      JoinInjective(ns, k, c.key);
      if k != c.key {
        Srv.EffectElsewhere(s, e, Rekey(c, j), f, Join(ns, k));
        Srv.EffectElsewhere(t, e, c, f, k);
      }
    }
  }

  lemma RekeyKey(c: Store.Command, key: Str)
    ensures Rekey(c, key).key == key
  {
  }

  lemma WrittenNext(rs: seq<Request>, r: Request)
    ensures Written(rs + [r]) == Written(rs) + [Srv.Do(r.engine, r.command)]
  {
    assert (rs + [r])[..|rs|] == rs;
  }

  /** Through its namespace a client gets the replies of a server of its own to the commands as it wrote them. */
  lemma {:induction false} PrivateServer(sp: Spaces, rs: seq<Request>, who: Client)
    requires forall r :: r in rs ==> r.client == who && Wellformed(sp, r)
    ensures Srv.PlainReplies(Srv.NOTHING, JoinedAll(sp, rs)) == Srv.PlainReplies(Srv.NOTHING, Written(rs))
    ensures Images(Srv.PlainRun(Srv.NOTHING, JoinedAll(sp, rs)), Srv.PlainRun(Srv.NOTHING, Written(rs)), sp.Of(who))
  {
    if rs != [] {
      var init, r := rs[..|rs| - 1], rs[|rs| - 1];
      assert r in rs && (forall q :: q in init ==> q in rs) && rs == init + [r];
      hide Images, Srv.PlainReplies, Srv.PlainRun, JoinedAll, Written;
      PrivateServer(sp, init, who);
      JoinedAppend(sp, init, r);
      WrittenNext(init, r);
      PlainAppend(Srv.NOTHING, JoinedAll(sp, init), Joined(sp, r));
      PlainAppend(Srv.NOTHING, Written(init), Srv.Do(r.engine, r.command));
      ImageStep(Srv.PlainRun(Srv.NOTHING, JoinedAll(sp, init)), Srv.PlainRun(Srv.NOTHING, Written(init)),
        sp.Of(who), r.engine, r.command);
    }
  }

  lemma {:induction false} OwnOnly(rs: seq<Request>, who: Client, r: Request)
    requires r in Own(rs, who)
    ensures r in rs && r.client == who
  {
    if rs != [] && (rs[|rs| - 1] != r || r.client != who) {
      OwnOnly(rs[..|rs| - 1], who, r);
    }
  }

  // ---- behind the cache

  /** Each joined key is used on one engine, and has a slot if that is the hash engine. */
  ghost predicate Routed(sp: Spaces, rs: seq<Request>, owner: Str -> Srv.Engine) {
    forall r :: r in rs ==>
      Wellformed(sp, r) && Srv.Allowed(Srv.Fresh(), Joined(sp, r), owner)
  }

  lemma {:induction false} RoutedEach(sp: Spaces, rs: seq<Request>, owner: Str -> Srv.Engine, q: Srv.Request)
    requires Routed(sp, rs, owner) && q in JoinedAll(sp, rs)
    ensures q.Do? && Srv.Allowed(Srv.Fresh(), q, owner)
  {
    if rs != [] {
      var init, r := rs[..|rs| - 1], rs[|rs| - 1];
      assert r in rs && forall x :: x in init ==> x in rs;
      if q != Joined(sp, r) {
        RoutedEach(sp, init, owner, q);
      }
    }
  }

  lemma RoutedAllowed(sp: Spaces, s: Srv.State, rs: seq<Request>, owner: Str -> Srv.Engine)
    requires Routed(sp, rs, owner) && s.cache.max > 0
    ensures Srv.AllAllowed(s, JoinedAll(sp, rs), owner)
  {
    var qs := JoinedAll(sp, rs);
    forall n | 0 <= n < |qs| ensures Srv.Allowed(Srv.Run(s, qs[..n]), qs[n], owner) {
      RoutedEach(sp, rs, owner, qs[n]);
    }
  }

  lemma {:induction false} OwnRouted(sp: Spaces, rs: seq<Request>, who: Client, owner: Str -> Srv.Engine)
    requires Routed(sp, rs, owner)
    ensures Routed(sp, Own(rs, who), owner)
  {
    if rs != [] {
      assert rs[|rs| - 1] in rs && forall q :: q in rs[..|rs| - 1] ==> q in rs;
      OwnRouted(sp, rs[..|rs| - 1], who, owner);
    }
  }

  /** Two interleaved clients in unrelated namespaces each see, through the shared cache and
      the shared engines, exactly the replies they would see alone. */
  lemma NonInterference(sp: Spaces, s: Srv.State, rs: seq<Request>, who: Client, owner: Str -> Srv.Engine)
    requires Separate(sp) && Srv.Good(s, owner) && Routed(sp, rs, owner)
    ensures |Srv.Replies(s, JoinedAll(sp, rs))| == |rs|
    ensures OwnReplies(Srv.Replies(s, JoinedAll(sp, rs)), rs, who) == Srv.Replies(s, JoinedAll(sp, Own(rs, who)))
  {
    OwnRouted(sp, rs, who, owner);
    RoutedAllowed(sp, s, rs, owner);
    RoutedAllowed(sp, s, Own(rs, who), owner);
    Srv.Transparency(s, JoinedAll(sp, rs), owner);
    Srv.Transparency(s, JoinedAll(sp, Own(rs, who)), owner);
    PlainNonInterference(sp, s.stores, rs, who);
  }

  /** So whatever the other client does, and behind the shared cache, each client gets the replies of a server
      without a cache that serves it alone, to the commands as it wrote them. */
  lemma OwnServer(sp: Spaces, s: Srv.State, rs: seq<Request>, who: Client, owner: Str -> Srv.Engine)
    requires Separate(sp) && Srv.Good(s, owner) && s.stores == Srv.NOTHING && Routed(sp, rs, owner)
    ensures |Srv.Replies(s, JoinedAll(sp, rs))| == |rs|
    ensures OwnReplies(Srv.Replies(s, JoinedAll(sp, rs)), rs, who)
      == Srv.PlainReplies(Srv.NOTHING, Written(Own(rs, who)))
  {
    NonInterference(sp, s, rs, who, owner);
    OwnRouted(sp, rs, who, owner);
    RoutedAllowed(sp, s, Own(rs, who), owner);
    Srv.Transparency(s, JoinedAll(sp, Own(rs, who)), owner);
    forall r | r in Own(rs, who) ensures r.client == who && Wellformed(sp, r) {
      OwnOnly(rs, who, r);
    }
    PrivateServer(sp, Own(rs, who), who);
  }
}
