/** The four engines as owners of their structures: each has an abstract value and a footprint. */
module Engines {
  import opened Pairs
  import Store
  import A = ArrayTable
  import ArraySpec
  import H = HashTable
  import HashSpec
  import R = RbTree
  import K = SkipList
  import SkipShape

  class TreeEngine {
    const tree: R.RbTree
    ghost var pairs: seq<Pair>
    ghost var Repr: set<object>

    ghost predicate Valid()
      reads this, Repr
    {
      && this !in Repr && tree in Repr && tree.nil in Repr && (forall n :: n in tree.nodes ==> n in Repr)
      && tree.Valid() && tree.Contents() == pairs
    }

    ghost function View(): Store.Map
      reads this
    {
      ToMap(pairs)
    }

    constructor ()
      ensures Valid() && fresh(Repr) && pairs == [] && View() == map[]
    {
      tree := new R.RbTree();
      new;
      pairs := tree.Contents();
      Repr := {tree, tree.nil};
    }

    ghost method Adopt()
      requires tree.Valid() && this !in Repr && tree in Repr && tree.nil in Repr
      modifies this`pairs, this`Repr
      ensures Valid() && pairs == tree.Contents() && Repr == old(Repr) + tree.nodes
    {
      pairs := tree.Contents();
      Repr := Repr + tree.nodes;
    }

    /** One command of the engine's interface. */
    method Do(c: Store.Command) returns (r: Store.Reply)
      requires Valid()
      modifies this, Repr
      ensures Valid() && fresh(Repr - old(Repr))
      ensures r == Store.ReplyTo(old(View()), c) && View() == Store.Next(old(View()), c)
    {
      hide R.RbTree.Valid, ToMap;
      r := TreeServe(tree, c);
      Adopt();
    }
  }

  method TreeServe(t: R.RbTree, c: Store.Command) returns (r: Store.Reply)
    requires t.Valid()
    modifies t, t.nil, t.nodes
    ensures t.Valid() && fresh(t.nodes - old(t.nodes))
    ensures r == Store.ReplyTo(old(t.View()), c) && t.View() == Store.Next(old(t.View()), c)
  {
    hide R.RbTree.Valid, R.RbTree.View;
    var code;
    match c
    case Set(k, v) => code := t.Set(k, v); return Store.Code(code);
    case Get(k) => r := t.Get(k);
    case Mod(k, v) => code := t.Mod(k, v); return Store.Code(code);
    case Del(k) => code := t.Del(k); return Store.Code(code);
    case Exist(k) => code := t.Exist(k); return Store.Code(code);
  }

  class ArrayEngine {
    const table: A.ArrayTable
    ghost var slots: ArraySpec.Slots
    ghost var Repr: set<object>

    ghost predicate Valid()
      reads this, Repr
    {
      && this !in Repr && table in Repr && table.table in Repr
      && table.Valid() && table.table[..table.idx] == slots
    }

    ghost function View(): Store.Map
      reads this
    {
      ArraySpec.View(slots)
    }

    constructor ()
      ensures Valid() && fresh(Repr) && slots == [] && View() == map[]
    {
      table := new A.ArrayTable();
      new;
      slots := table.table[..table.idx];
      Repr := {table, table.table};
    }

    /** One command; a full table refuses every Set. */
    method Do(c: Store.Command) returns (r: Store.Reply)
      requires Valid()
      modifies this, Repr
      ensures Valid() && Repr == old(Repr)
      ensures c.Set? ==> slots == ArraySpec.SetIn(old(slots), c.key, c.value)
      ensures if c.Set? && |old(View())| >= ArraySpec.SIZE then r == Store.Code(-1) && View() == old(View())
        else r == Store.ReplyTo(old(View()), c) && View() == Store.Next(old(View()), c)
    {
      r := ArrayServe(table, c);
      slots := table.table[..table.idx];
    }
  }

  method ArrayServe(a: A.ArrayTable, c: Store.Command) returns (r: Store.Reply)
    requires a.Valid()
    modifies a, a.table
    ensures a.Valid()
    ensures c.Set? ==> a.table[..a.idx] == ArraySpec.SetIn(old(a.table[..a.idx]), c.key, c.value)
    ensures if c.Set? && old(|a.View()|) >= ArraySpec.SIZE then r == Store.Code(-1) && a.View() == old(a.View())
      else r == Store.ReplyTo(old(a.View()), c) && a.View() == Store.Next(old(a.View()), c)
  {
    var code;
    match c
    case Set(k, v) => code := a.Set(k, v); return Store.Code(code);
    case Get(k) => r := a.Get(k);
    case Mod(k, v) => code := a.Mod(k, v); return Store.Code(code);
    case Del(k) => code := a.Del(k); return Store.Code(code);
    case Exist(k) => code := a.Exist(k); return Store.Code(code);
  }

  class HashEngine {
    const hash: H.HashTable
    ghost var chains: HashSpec.Buckets
    ghost var Repr: set<object>

    ghost predicate Valid()
      reads this, Repr
    {
      && this !in Repr && hash in Repr && hash.nodes in Repr && (forall n :: n in hash.all ==> n in Repr)
      && hash.Valid() && hash.Chains() == chains
    }

    ghost function View(): Store.Map
      reads this
    {
      HashSpec.View(chains)
    }

    constructor ()
      ensures Valid() && fresh(Repr) && View() == map[] && chains == seq(HashSpec.SLOTS, _ => [])
    {
      hash := new H.HashTable();
      new;
      chains := hash.Chains();
      Repr := {hash, hash.nodes};
    }

    ghost method Adopt()
      requires hash.Valid() && this !in Repr && hash in Repr && hash.nodes in Repr
      modifies this`chains, this`Repr
      ensures Valid() && chains == hash.Chains() && Repr == old(Repr) + hash.all
    {
      chains := hash.Chains();
      Repr := Repr + hash.all;
    }

    /** One command on a key that has a slot. */
    method Do(c: Store.Command) returns (r: Store.Reply)
      requires Valid() && HashSpec.Hashable(c.key)
      modifies this, Repr
      ensures Valid() && fresh(Repr - old(Repr))
      ensures c.Set? ==> chains == HashSpec.SetIn(old(chains), c.key, c.value)
      ensures r == Store.ReplyTo(old(View()), c) && View() == Store.Next(old(View()), c)
    {
      hide H.HashTable.Valid, H.HashTable.Chains, HashSpec.SetIn, HashSpec.View;
      r := HashServe(hash, c);
      Adopt();
    }
  }

  method HashServe(h: H.HashTable, c: Store.Command) returns (r: Store.Reply)
    requires h.Valid() && HashSpec.Hashable(c.key)
    modifies h, h.nodes, h.all
    ensures h.Valid() && forall n :: n in h.all ==> n in old(h.all) || fresh(n)
    ensures c.Set? ==> h.Chains() == HashSpec.SetIn(old(h.Chains()), c.key, c.value)
    ensures r == Store.ReplyTo(old(h.View()), c) && h.View() == Store.Next(old(h.View()), c)
  {
    hide H.HashTable.Valid, H.HashTable.View, H.HashTable.Chains, HashSpec.SetIn;
    var code;
    match c
    case Set(k, v) => code := h.Set(k, v); return Store.Code(code);
    case Get(k) => r := h.Get(k);
    case Mod(k, v) => code := h.Mod(k, v); return Store.Code(code);
    case Del(k) => code := h.Del(k); return Store.Code(code);
    case Exist(k) => code := h.Exist(k); return Store.Code(code);
  }

  class SkipEngine {
    const skip: K.SkipList
    ghost var pairs: seq<Pair>
    ghost var Repr: set<object>

    ghost predicate Valid()
      reads this, Repr
    {
      && this !in Repr && skip in Repr && (forall n :: n in skip.line ==> n in Repr)
      && skip.Valid() && SkipShape.Entries(skip.line, skip.Stored()) == pairs
    }

    ghost function View(): Store.Map
      reads this
    {
      ToMap(pairs)
    }

    constructor ()
      ensures Valid() && fresh(Repr) && View() == map[]
    {
      hide K.SkipList.Valid, ToMap;
      skip := new K.SkipList();
      Repr := {skip};
      new;
      Adopt();
    }

    ghost method Adopt()
      requires skip.Valid() && this !in Repr && skip in Repr
      modifies this`pairs, this`Repr
      ensures Valid() && View() == skip.View() && forall o :: o in Repr ==> o in old(Repr) || o in skip.line
    {
      assert skip.line != [];
      hide K.SkipList.Valid, SkipShape.Entries, ToMap;
      pairs := SkipShape.Entries(skip.line, skip.Stored());
      Repr := Repr + set n | n in skip.line;
    }

    /** One command, whatever height the list draws for a new node. */
    method Do(c: Store.Command) returns (r: Store.Reply)
      requires Valid()
      modifies this, Repr
      ensures Valid() && fresh(Repr - old(Repr))
      ensures r == Store.ReplyTo(old(View()), c) && View() == Store.Next(old(View()), c)
    {
      hide K.SkipList.Valid, ToMap, SkipShape.Entries;
      r := SkipServe(skip, c);
      Adopt();
    }
  }

  method SkipServe(s: K.SkipList, c: Store.Command) returns (r: Store.Reply)
    requires s.Valid()
    modifies s, s.line
    ensures s.Valid() && forall n :: n in s.line ==> n in old(s.line) || fresh(n)
    ensures r == Store.ReplyTo(old(s.View()), c) && s.View() == Store.Next(old(s.View()), c)
  {
    hide K.SkipList.Valid, K.SkipList.View;
    var code;
    match c
    case Set(k, v) =>
      // the outcome of randomLevel, which may be any level
      var height :| 0 <= height <= SkipShape.MAX_LEVEL;
      code := s.Set(k, v, height);
      return Store.Code(code);
    case Get(k) => r := s.Get(k);
    case Mod(k, v) => code := s.Mod(k, v); return Store.Code(code);
    case Del(k) => code := s.Del(k); return Store.Code(code);
    case Exist(k) => code := s.Exist(k); return Store.Code(code);
  }

  // ---- one run on each

  method RunTree(cs: seq<Store.Command>) returns (rs: seq<Store.Reply>)
    ensures rs == Store.Replies(map[], cs)
  {
    hide TreeEngine.Valid;
    var t := new TreeEngine();
    rs := [];
    for i := 0 to |cs|
      invariant t.Valid() && fresh(t) && fresh(t.Repr)
      invariant t.View() == Store.Run(map[], cs[..i]) && rs == Store.Replies(map[], cs[..i])
    {
      var r := t.Do(cs[i]);
      rs := rs + [r];
      assert cs[..i + 1][..i] == cs[..i];
    }
    assert cs[..|cs|] == cs;
  }

  method RunHash(cs: seq<Store.Command>) returns (rs: seq<Store.Reply>)
    requires forall i :: 0 <= i < |cs| ==> HashSpec.Hashable(cs[i].key)
    ensures rs == Store.Replies(map[], cs)
  {
    hide HashEngine.Valid;
    var h := new HashEngine();
    rs := [];
    for i := 0 to |cs|
      invariant h.Valid() && fresh(h) && fresh(h.Repr)
      invariant h.View() == Store.Run(map[], cs[..i]) && rs == Store.Replies(map[], cs[..i])
    {
      var r := h.Do(cs[i]);
      rs := rs + [r];
      assert cs[..i + 1][..i] == cs[..i];
    }
    assert cs[..|cs|] == cs;
  }

  method RunSkip(cs: seq<Store.Command>) returns (rs: seq<Store.Reply>)
    ensures rs == Store.Replies(map[], cs)
  {
    hide SkipEngine.Valid;
    var s := new SkipEngine();
    rs := [];
    for i := 0 to |cs|
      invariant s.Valid() && fresh(s) && fresh(s.Repr)
      invariant s.View() == Store.Run(map[], cs[..i]) && rs == Store.Replies(map[], cs[..i])
    {
      var r := s.Do(cs[i]);
      rs := rs + [r];
      assert cs[..i + 1][..i] == cs[..i];
    }
    assert cs[..|cs|] == cs;
  }

  method RunArray(cs: seq<Store.Command>) returns (rs: seq<Store.Reply>)
    ensures rs == ArraySpec.Replies(map[], cs)
    ensures rs == Store.Replies(map[], cs) <==> ArraySpec.Fits(map[], cs)
  {
    hide ArrayEngine.Valid;
    var a := new ArrayEngine();
    rs := [];
    for i := 0 to |cs|
      invariant a.Valid() && fresh(a) && fresh(a.Repr)
      invariant a.View() == ArraySpec.Run(map[], cs[..i]) && rs == ArraySpec.Replies(map[], cs[..i])
    {
      var r := a.Do(cs[i]);
      rs := rs + [r];
      assert cs[..i + 1][..i] == cs[..i];
    }
    assert cs[..|cs|] == cs;
    ArraySpec.RunExact(map[], cs);
  }

  /** On any command sequence, whatever heights the skip list draws, hash table, tree and skip list
      answer alike, as one finite map does; the array does so if and only if no Set meets it full. */
  method Agree(cs: seq<Store.Command>)
      returns (a: seq<Store.Reply>, h: seq<Store.Reply>, t: seq<Store.Reply>, s: seq<Store.Reply>)
    requires forall i :: 0 <= i < |cs| ==> HashSpec.Hashable(cs[i].key)
    ensures h == t == s == Store.Replies(map[], cs)
    ensures a == t <==> ArraySpec.Fits(map[], cs)
  {
    a := RunArray(cs);
    h := RunHash(cs);
    t := RunTree(cs);
    s := RunSkip(cs);
  }
}
