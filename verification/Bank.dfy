/** The four global engines side by side. */
module Bank {
  import Store
  import Srv = Server
  import E = Engines
  import ArraySpec
  import HashSpec

  method MakeTableAndTree() returns (a: E.ArrayEngine, t: E.TreeEngine)
    ensures a.Valid() && fresh(a) && fresh(a.Repr) && a.slots == [] && a.View() == map[]
    ensures t.Valid() && fresh(t) && fresh(t.Repr) && t.View() == map[] && {a} + a.Repr !! {t} + t.Repr
  {
    hide E.ArrayEngine.Valid, E.TreeEngine.Valid;
    a := new E.ArrayEngine();
    t := new E.TreeEngine();
  }

  method MakeHashAndSkip() returns (h: E.HashEngine, s: E.SkipEngine)
    ensures h.Valid() && fresh(h) && fresh(h.Repr) && h.chains == seq(HashSpec.SLOTS, _ => []) && h.View() == map[]
    ensures s.Valid() && fresh(s) && fresh(s.Repr) && s.View() == map[] && {h} + h.Repr !! {s} + s.Repr
  {
    hide E.HashEngine.Valid, E.SkipEngine.Valid;
    h := new E.HashEngine();
    s := new E.SkipEngine();
  }

  class Bank {
    const table: E.ArrayEngine
    const tree: E.TreeEngine
    const hash: E.HashEngine
    const skip: E.SkipEngine
    ghost var Repr: set<object>

    /** Every engine keeps to its own footprint. */
    ghost predicate Apart()
      reads table, tree, hash, skip
    {
      && table !in tree.Repr + hash.Repr + skip.Repr && tree !in table.Repr + hash.Repr + skip.Repr
      && hash !in table.Repr + tree.Repr + skip.Repr && skip !in table.Repr + tree.Repr + hash.Repr
      && table.Repr !! tree.Repr && table.Repr !! hash.Repr && table.Repr !! skip.Repr
      && tree.Repr !! hash.Repr && tree.Repr !! skip.Repr && hash.Repr !! skip.Repr
    }

    ghost predicate Valid()
      reads this, Repr
    {
      && this !in Repr && table in Repr && tree in Repr && hash in Repr && skip in Repr
      && table.Repr <= Repr && tree.Repr <= Repr && hash.Repr <= Repr && skip.Repr <= Repr && Apart()
      && table.Valid() && tree.Valid() && hash.Valid() && skip.Valid()
    }

    ghost function Stores(): Srv.Stores
      reads table, tree, hash, skip
    {
      Srv.Stores(table.View(), tree.View(), hash.View(), skip.View())
    }

    /** What is not of the given engine stays. */
    twostate predicate Others(e: Srv.Engine)
      reads table, tree, hash, skip
    {
      && (!e.Array? ==> table.slots == old(table.slots)) && (!e.Tree? ==> tree.pairs == old(tree.pairs))
      && (!e.Hash? ==> hash.chains == old(hash.chains)) && (!e.Skip? ==> skip.pairs == old(skip.pairs))
    }

    constructor ()
      ensures Valid() && fresh(Repr) && Stores() == Srv.NOTHING
      ensures table.slots == [] && hash.chains == seq(HashSpec.SLOTS, _ => [])
    {
      hide E.ArrayEngine.Valid, E.TreeEngine.Valid, E.HashEngine.Valid, E.SkipEngine.Valid;
      hide E.ArrayEngine.View, E.TreeEngine.View, E.HashEngine.View, E.SkipEngine.View;
      var a, t := MakeTableAndTree();
      ghost var first := {a, t} + a.Repr + t.Repr;
      var h, s := MakeHashAndSkip();
      assert first !! {h, s} + h.Repr + s.Repr;
      table, tree, hash, skip := a, t, h, s;
      Repr := a.Repr + t.Repr + h.Repr + s.Repr + {a, t, h, s};
    }

    method DoArray(c: Store.Command) returns (r: Store.Reply)
      requires Valid()
      modifies Repr
      ensures Valid() && Repr == old(Repr)
      ensures Stores() == Srv.PlainNext(old(Stores()), Srv.Do(Srv.Array, c))
      ensures r == Srv.PlainReply(old(Stores()), Srv.Do(Srv.Array, c))
      ensures Others(Srv.Array) && (c.Set? ==> table.slots == ArraySpec.SetIn(old(table.slots), c.key, c.value))
    {
      hide E.ArrayEngine.Valid, E.TreeEngine.Valid, E.HashEngine.Valid, E.SkipEngine.Valid;
      hide E.ArrayEngine.View, E.TreeEngine.View, E.HashEngine.View, E.SkipEngine.View, ArraySpec.SetIn;
      r := table.Do(c);
    }

    method DoTree(c: Store.Command) returns (r: Store.Reply)
      requires Valid()
      modifies this, Repr
      ensures Valid() && fresh(Repr - old(Repr))
      ensures Stores() == Srv.PlainNext(old(Stores()), Srv.Do(Srv.Tree, c))
      ensures r == Srv.PlainReply(old(Stores()), Srv.Do(Srv.Tree, c)) && Others(Srv.Tree)
    {
      hide E.ArrayEngine.Valid, E.TreeEngine.Valid, E.HashEngine.Valid, E.SkipEngine.Valid;
      r := tree.Do(c);
      Repr := Repr + tree.Repr;
    }

    method DoHash(c: Store.Command) returns (r: Store.Reply)
      requires Valid() && HashSpec.Hashable(c.key)
      modifies this, Repr
      ensures Valid() && fresh(Repr - old(Repr))
      ensures Stores() == Srv.PlainNext(old(Stores()), Srv.Do(Srv.Hash, c))
      ensures r == Srv.PlainReply(old(Stores()), Srv.Do(Srv.Hash, c))
      ensures Others(Srv.Hash) && (c.Set? ==> hash.chains == HashSpec.SetIn(old(hash.chains), c.key, c.value))
    {
      hide E.ArrayEngine.Valid, E.TreeEngine.Valid, E.HashEngine.Valid, E.SkipEngine.Valid;
      r := hash.Do(c);
      Repr := Repr + hash.Repr;
    }

    method DoSkip(c: Store.Command) returns (r: Store.Reply)
      requires Valid()
      modifies this, Repr
      ensures Valid() && fresh(Repr - old(Repr))
      ensures Stores() == Srv.PlainNext(old(Stores()), Srv.Do(Srv.Skip, c))
      ensures r == Srv.PlainReply(old(Stores()), Srv.Do(Srv.Skip, c)) && Others(Srv.Skip)
    {
      hide E.ArrayEngine.Valid, E.TreeEngine.Valid, E.HashEngine.Valid, E.SkipEngine.Valid;
      r := skip.Do(c);
      Repr := Repr + skip.Repr;
    }

    /** One command on one engine. */
    method Do(e: Srv.Engine, c: Store.Command) returns (r: Store.Reply)
      requires Valid() && (e.Hash? ==> HashSpec.Hashable(c.key))
      modifies this, Repr
      ensures Valid() && fresh(Repr - old(Repr))
      ensures Stores() == Srv.PlainNext(old(Stores()), Srv.Do(e, c))
      ensures r == Srv.PlainReply(old(Stores()), Srv.Do(e, c))
    {
      hide Valid;
      match e
      case Array => r := DoArray(c);
      case Tree => r := DoTree(c);
      case Hash => r := DoHash(c);
      case Skip => r := DoSkip(c);
    }
  }
}
