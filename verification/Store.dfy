/** What every key-value engine promises: one finite map and the return codes of its five commands. */
module Store {
  import opened Strings

  type Map = map<Str, Str>

  datatype Command =
    | Set(key: Str, value: Str)
    | Get(key: Str)
    | Mod(key: Str, value: Str)
    | Del(key: Str)
    | Exist(key: Str)

  /** A return code, a value, or the null pointer of a failed lookup. */
  datatype Reply = Code(code: int) | Value(value: Str) | Missing

  /** Zero is success; one means `already there` for Set and `not there` for the others. */
  function ReplyTo(m: Map, c: Command): Reply {
    match c
    case Set(k, _) => Code(if k in m then 1 else 0)
    case Get(k) => if k in m then Value(m[k]) else Missing
    case Mod(k, _) => Code(if k in m then 0 else 1)
    case Del(k) => Code(if k in m then 0 else 1)
    case Exist(k) => Code(if k in m then 0 else 1)
  }

  function Next(m: Map, c: Command): Map {
    match c
    case Set(k, v) => if k in m then m else m[k := v]
    case Get(k) => m
    case Mod(k, v) => if k in m then m[k := v] else m
    case Del(k) => m - {k}
    case Exist(k) => m
  }

  function Run(m: Map, cs: seq<Command>): Map {
    if cs == [] then m else Next(Run(m, cs[..|cs| - 1]), cs[|cs| - 1])
  }

  function Replies(m: Map, cs: seq<Command>): seq<Reply> {
    if cs == [] then []
    else Replies(m, cs[..|cs| - 1]) + [ReplyTo(Run(m, cs[..|cs| - 1]), cs[|cs| - 1])]
  }

  // ---- what a client sees

  lemma RunNext(m: Map, cs: seq<Command>, c: Command)
    ensures Run(m, cs + [c]) == Next(Run(m, cs), c)
  {
    assert (cs + [c])[..|cs|] == cs;
  }

  /** Nothing is there at the start, and the codes tell what a Get would find. */
  lemma Codes(m: Map, k: Str, v: Str)
    ensures ReplyTo(map[], Get(k)) == Missing
    ensures var found := ReplyTo(m, Get(k));
      (found == Missing || found.Value?)
      && ReplyTo(m, Set(k, v)) == Code(if found == Missing then 0 else 1)
      && ReplyTo(m, Mod(k, v)) == ReplyTo(m, Del(k)) == ReplyTo(m, Exist(k)) == Code(if found == Missing then 1 else 0)
  {
  }

  /** A command changes the reply to no command on another key. */
  lemma OtherKey(m: Map, c: Command, d: Command)
    requires c.key != d.key
    ensures ReplyTo(Next(m, c), d) == ReplyTo(m, d)
  {
  }

  /** The commands leave a binding of the key alone, except that a Set may make one. */
  predicate Spares(ds: seq<Command>, k: Str) {
    forall i :: 0 <= i < |ds| && ds[i].key == k ==> !ds[i].Mod? && !ds[i].Del?
  }

  /** After a Set or a Mod that answers 0, a Get is answered with its value until a Mod or a Del of the key,
      whatever other commands come. */
  lemma {:induction false} ReadsWrite(m: Map, cs: seq<Command>, c: Command, ds: seq<Command>)
    requires (c.Set? || c.Mod?) && ReplyTo(Run(m, cs), c) == Code(0) && Spares(ds, c.key)
    ensures ReplyTo(Run(m, cs + [c] + ds), Get(c.key)) == Value(c.value)
  {
    if ds == [] {
      assert cs + [c] + ds == cs + [c];
      RunNext(m, cs, c);
    } else {
      var init, d := ds[..|ds| - 1], ds[|ds| - 1];
      ReadsWrite(m, cs, c, init);
      assert cs + [c] + ds == (cs + [c] + init) + [d];
      RunNext(m, cs + [c] + init, d);
    }
  }

  /** After a Del, whatever it answers, a Get finds nothing until a Set of the key. */
  lemma {:induction false} MissesDeleted(m: Map, cs: seq<Command>, k: Str, ds: seq<Command>)
    requires forall i :: 0 <= i < |ds| && ds[i].key == k ==> !ds[i].Set?
    ensures ReplyTo(Run(m, cs + [Del(k)] + ds), Get(k)) == Missing
  {
    if ds == [] {
      assert cs + [Del(k)] + ds == cs + [Del(k)];
      RunNext(m, cs, Del(k));
    } else {
      var init, d := ds[..|ds| - 1], ds[|ds| - 1];
      MissesDeleted(m, cs, k, init);
      assert cs + [Del(k)] + ds == (cs + [Del(k)] + init) + [d];
      RunNext(m, cs + [Del(k)] + init, d);
    }
  }

  /** A Get, an Exist and every command that answers 1 change no later reply. */
  lemma NoEffect(m: Map, c: Command, ds: seq<Command>)
    requires c.Get? || c.Exist? || ReplyTo(m, c) == Code(1)
    ensures Replies(Next(m, c), ds) == Replies(m, ds)
  {
    assert c.Del? ==> m - {c.key} == m;
  }
}
