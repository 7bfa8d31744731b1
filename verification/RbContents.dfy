/** The bindings along the nodes of a tree, over a snapshot of the nodes' keys and values. */
module RbContents {
  import opened Strings
  import opened Pairs
  import opened RbShape

  type Data<!N> = map<N, Pair>

  function Datum<N>(d: Data<N>, n: N): Pair {
    if n in d then d[n] else ([], [])
  }

  function Listed<N>(s: seq<N>, d: Data<N>): (e: seq<Pair>)
    ensures |e| == |s| && forall i :: 0 <= i < |s| ==> e[i] == Datum(d, s[i])
  {
    seq(|s|, i requires 0 <= i < |s| => Datum(d, s[i]))
  }

  lemma ListedSplit<N>(a: seq<N>, x: N, b: seq<N>, d: Data<N>)
    ensures Listed(a + [x] + b, d) == Listed(a, d) + [Datum(d, x)] + Listed(b, d)
    ensures Listed(a + b, d) == Listed(a, d) + Listed(b, d)
    ensures Listed(a + [x], d) == Listed(a, d) + [Datum(d, x)] && Listed([x] + b, d) == [Datum(d, x)] + Listed(b, d)
  {
  }

  lemma ListedSame<N>(s: seq<N>, d: Data<N>, d': Data<N>)
    requires forall n :: n in s ==> Datum(d, n) == Datum(d', n)
    ensures Listed(s, d) == Listed(s, d')
  {
  }

  // ---- searching

  /** `key` falls into the hole of `c`. */
  predicate Gap<N>(c: Context<N>, d: Data<N>, key: Str) {
    AllLess(Listed(Before(c), d), key) && AllGreater(Listed(After(c), d), key)
  }

  /** Comparing with the root of the subtree in focus narrows the search to one side. */
  lemma Descend<N>(c: Context<N>, t: Tree<N>, d: Data<N>, key: Str)
    requires t.Node? && Sorted(Listed(Line(c, t), d)) && Gap(c, d, key)
    ensures Less(key, Datum(d, t.id).0) ==> Gap(InLeft(t.id, t.color, t.right, c), d, key)
    ensures Less(Datum(d, t.id).0, key) ==> Gap(InRight(t.left, t.id, t.color, c), d, key)
  {
    var a, b, x := Before(c) + Order(t.left), Order(t.right) + After(c), Datum(d, t.id);
    Regroup(Before(c), Order(t.left), t.id, Order(t.right), After(c));
    ListedSplit(a, t.id, b, d);
    SortedSplit(Listed(a, d), x, Listed(b, d));
    if Less(key, x.0) {
      AllGreaterGrow(x, Listed(b, d), key);
      assert [t.id] + Order(t.right) + After(c) == [t.id] + b;
    }
    if Less(x.0, key) {
      AllLessGrow(Listed(a, d), x, key);
    }
  }

  /** Which side of the node above the gap lies on. */
  lemma GapSide<N>(c: Context<N>, d: Data<N>, key: Str)
    requires Gap(c, d, key) && !c.Top?
    ensures c.InLeft? <==> Compare(key, Datum(d, c.id).0) < 0
  {
    var x := Datum(d, c.id);
    CompareFlip(key, x.0);
    if c.InLeft? {
      var s := Listed(After(c), d);
      assert After(c)[0] == c.id && s[0] == x;
      assert x in s && Less(key, x.0);
    } else {
      var s, n := Listed(Before(c), d), |Before(c)| - 1;
      assert Before(c)[n] == c.id && s[n] == x;
      assert x in s && Less(x.0, key);
    }
  }

  /** A node's own binding is found under its key. */
  lemma PresentListed<N>(c: Context<N>, t: Tree<N>, d: Data<N>)
    requires t.Node? && Sorted(Listed(Order(Plug(c, t)), d))
    ensures var m, x := ToMap(Listed(Order(Plug(c, t)), d)), Datum(d, t.id); x.0 in m && m[x.0] == x.1
  {
    var a, b, x := Before(c) + Order(t.left), Order(t.right) + After(c), Datum(d, t.id);
    PlugLine(c, t);
    Regroup(Before(c), Order(t.left), t.id, Order(t.right), After(c));
    ListedSplit(a, t.id, b, d);
    SortedSplit(Listed(a, d), x, Listed(b, d));
    ToMapRebind(Listed(a, d), x, Listed(b, d), x.1);
  }

  /** A key that falls into an empty hole is absent. */
  lemma AbsentListed<N>(c: Context<N>, d: Data<N>, key: Str)
    requires Gap(c, d, key)
    ensures key !in ToMap(Listed(Order(Plug(c, Leaf)), d))
  {
    StrictTotalOrder();
    PlugLine(c, Leaf);
    var a, b := Listed(Before(c), d), Listed(After(c), d);
    assert Listed(Line(c, Leaf), d) == a + b;
    assert forall p :: p in a + b ==> p in a || p in b;
    ToMapKeys(a + b, key);
  }

  // ---- updates

  lemma InsertListed<N>(c: Context<N>, z: N, d: Data<N>, d': Data<N>)
    requires Sorted(Listed(Before(c) + After(c), d)) && Gap(c, d, Datum(d', z).0)
    requires forall n :: n in Before(c) + After(c) ==> Datum(d, n) == Datum(d', n)
    ensures Sorted(Listed(Before(c) + [z] + After(c), d'))
    ensures ToMap(Listed(Before(c) + [z] + After(c), d'))
      == ToMap(Listed(Before(c) + After(c), d))[Datum(d', z).0 := Datum(d', z).1]
  {
    var a, b, x := Before(c), After(c), Datum(d', z);
    ListedSame(a + b, d, d');
    ListedSplit(a, z, b, d');
    ListedSplit(a, z, b, d);
    assert Listed(a, d) == Listed(a + b, d)[..|a|] == Listed(a, d');
    assert Listed(b, d) == Listed(a + b, d)[|a|..] == Listed(b, d');
    SortedInsert(Listed(a, d), x, Listed(b, d));
    assert forall p :: p in Listed(b, d) ==> p in Listed(a, d) + Listed(b, d);
    ToMapSplit(Listed(a, d), x, Listed(b, d));
  }

  /** Filling an empty hole a key falls into adds exactly that binding. */
  lemma FillGap<N>(c: Context<N>, z: N, d: Data<N>, p: Pair)
    requires Sorted(Listed(Order(Plug(c, Leaf)), d)) && Gap(c, d, p.0) && z !in d
    requires forall n :: n in Line(c, Leaf) ==> n in d
    ensures var s := Listed(Line(c, Node(Leaf, z, Red, Leaf)), d[z := p]);
      Sorted(s) && ToMap(s) == ToMap(Listed(Order(Plug(c, Leaf)), d))[p.0 := p.1]
    ensures p.0 !in ToMap(Listed(Order(Plug(c, Leaf)), d))
  {
    PlugLine(c, Leaf);
    assert Line(c, Leaf) == Before(c) + After(c);
    assert Order(Node(Leaf, z, Red, Leaf)) == [z];
    AbsentListed(c, d, p.0);
    InsertListed(c, z, d, d[z := p]);
  }

  /** Dropping one binding of a sorted list. */
  lemma DropBinding(a: seq<Pair>, x: Pair, b: seq<Pair>)
    requires Sorted(a + [x] + b)
    ensures Sorted(a + b) && ToMap(a + b) == ToMap(a + [x] + b) - {x.0}
  {
    SortedSplit(a, x, b);
    SortedDrop(a, x, b);
    ToMapDrop(a, x, b);
  }

  /** Splicing out the node that holds the binding. */
  lemma DropListed<N>(a: seq<N>, z: N, b: seq<N>, d: Data<N>, d': Data<N>)
    requires Sorted(Listed(a + [z] + b, d))
    requires forall n :: n in a + b ==> Datum(d, n) == Datum(d', n)
    ensures Sorted(Listed(a + b, d'))
    ensures ToMap(Listed(a + b, d')) == ToMap(Listed(a + [z] + b, d)) - {Datum(d, z).0}
  {
    ListedSame(a + b, d, d');
    ListedSplit(a, z, b, d);
    DropBinding(Listed(a, d), Datum(d, z), Listed(b, d));
  }

  /** Splicing out the successor instead, after its binding has moved into the node. */
  lemma ReplaceListed<N>(a: seq<N>, z: N, y: N, b: seq<N>, d: Data<N>, d': Data<N>)
    requires Sorted(Listed(a + [z] + ([y] + b), d)) && Datum(d', z) == Datum(d, y)
    requires forall n :: n in a && n != z ==> Datum(d, n) == Datum(d', n)
    requires forall n :: n in b && n != z ==> Datum(d, n) == Datum(d', n)
    ensures Sorted(Listed(a + [z] + b, d'))
    ensures ToMap(Listed(a + [z] + b, d')) == ToMap(Listed(a + [z] + ([y] + b), d)) - {Datum(d, z).0}
  {
    ListedSplit(a, z, [y] + b, d);
    ListedSplit(a, y, b, d);
    SortedSplit(Listed(a, d), Datum(d, z), Listed([y] + b, d));
    NotListed(a, z, d);
    NotListed([y] + b, z, d);
    assert forall n :: n in b ==> n in [y] + b;
    ListedSame(a, d, d');
    ListedSame(b, d, d');
    ListedSplit(a, z, b, d');
    assert Listed(a, d) + Listed([y] + b, d) == Listed(a + [z] + b, d');
    DropBinding(Listed(a, d), Datum(d, z), Listed([y] + b, d));
  }

  lemma NotListed<N>(s: seq<N>, z: N, d: Data<N>)
    requires NoKey(Listed(s, d), Datum(d, z).0)
    ensures z !in s
  {
    forall i | 0 <= i < |s| ensures s[i] != z {
      assert Listed(s, d)[i] in Listed(s, d);
    }
  }

  lemma RebindListed<N>(c: Context<N>, t: Tree<N>, d: Data<N>, v: Str)
    requires t.Node? && t.id in d && Sorted(Listed(Order(Plug(c, t)), d))
    ensures var s, d' := Order(Plug(c, t)), d[t.id := (d[t.id].0, v)];
      Sorted(Listed(s, d')) && ToMap(Listed(s, d')) == ToMap(Listed(s, d))[d[t.id].0 := v]
  {
    var a, b, d' := Before(c) + Order(t.left), Order(t.right) + After(c), d[t.id := (d[t.id].0, v)];
    PlugLine(c, t);
    Regroup(Before(c), Order(t.left), t.id, Order(t.right), After(c));
    ListedSplit(a, t.id, b, d);
    ListedSplit(a, t.id, b, d');
    SortedSplit(Listed(a, d), d[t.id], Listed(b, d));
    NotListed(a, t.id, d);
    NotListed(b, t.id, d);
    ListedSame(a, d, d');
    ListedSame(b, d, d');
    ToMapRebind(Listed(a, d), d[t.id], Listed(b, d), v);
    RebindSorted(Listed(a, d), d[t.id], Listed(b, d), v);
  }

  lemma RebindSorted(a: seq<Pair>, x: Pair, b: seq<Pair>, v: Str)
    requires Sorted(a + [x] + b)
    ensures Sorted(a + [(x.0, v)] + b)
  {
    var s, r := a + [x] + b, a + [(x.0, v)] + b;
    assert forall i :: 0 <= i < |r| ==> r[i].0 == s[i].0;
  }

  /** Deleting the root of `t` by splicing it out. */
  lemma DeleteOwn<N>(c: Context<N>, t: Tree<N>, d: Data<N>, d': Data<N>)
    requires t.Node? && (t.left.Leaf? || t.right.Leaf?) && Sorted(Listed(Order(Plug(c, t)), d))
    requires forall n :: n in Line(c, OnlyChild(t)) && n != t.id ==> Datum(d, n) == Datum(d', n)
    ensures Sorted(Listed(Line(c, OnlyChild(t)), d'))
    ensures ToMap(Listed(Line(c, OnlyChild(t)), d')) == ToMap(Listed(Order(Plug(c, t)), d)) - {Datum(d, t.id).0}
  {
    var a, b := Before(c) + Order(t.left), Order(t.right) + After(c);
    SpliceLine(c, t);
    ListedSplit(a, t.id, b, d);
    SortedSplit(Listed(a, d), Datum(d, t.id), Listed(b, d));
    NotListed(a, t.id, d);
    NotListed(b, t.id, d);
    assert t.id !in a + b;
    DropListed(a, t.id, b, d, d');
  }

  /** Deleting the binding of `z` by moving in that of its successor, the root of `u`, and splicing that out. */
  lemma DeleteSuccessor<N>(a: seq<N>, z: N, e: Context<N>, u: Tree<N>, d: Data<N>, d': Data<N>)
    requires u.Node? && u.left.Leaf? && Before(e) == a + [z] && Sorted(Listed(Order(Plug(e, u)), d))
    requires Datum(d', z) == Datum(d, u.id)
    requires forall n :: n in Line(e, u.right) && n != z ==> Datum(d, n) == Datum(d', n)
    ensures Sorted(Listed(Line(e, u.right), d'))
    ensures ToMap(Listed(Line(e, u.right), d')) == ToMap(Listed(Order(Plug(e, u)), d)) - {Datum(d, z).0}
  {
    var b := Order(u.right) + After(e);
    SuccessorLines(a, z, e, u, b);
    hide Order, Plug, Line, Before, After, Listed, Sorted, ToMap;
    forall n | n in a && n != z ensures Datum(d, n) == Datum(d', n) {
      assert n in a + [z] + b;
    }
    forall n | n in b && n != z ensures Datum(d, n) == Datum(d', n) {
      assert n in a + [z] + b;
    }
    ReplaceListed(a, z, u.id, b, d, d');
  }

  lemma SuccessorLines<N>(a: seq<N>, z: N, e: Context<N>, u: Tree<N>, b: seq<N>)
    requires u.Node? && u.left.Leaf? && Before(e) == a + [z] && b == Order(u.right) + After(e)
    ensures Order(Plug(e, u)) == a + [z] + ([u.id] + b) && Line(e, u.right) == a + [z] + b
  {
    SpliceLine(e, u);
    assert Order(u.left) == [] && a + [z] + [] == a + [z];
    assert a + [z] + [u.id] + b == a + [z] + ([u.id] + b);
  }

  /** `y` is the node to unlink when the binding of `z` goes. */
  ghost predicate Chosen<N>(z: N, c: Context<N>, t: Tree<N>, y: N, e: Context<N>, u: Tree<N>) {
    && t.Node? && z == t.id && u.Node? && y == u.id && (u.left.Leaf? || u.right.Leaf?) && Plug(e, u) == Plug(c, t)
    && if y == z then e == c && u == t else u.left.Leaf? && Before(e) == Before(c) + Order(t.left) + [z]
  }

  /** The bindings per node once `y` is unlinked and, if it is another node, its binding moved into `z`. */
  ghost function Shrunk<N>(d: Data<N>, z: N, y: N): Data<N>
    requires y in d
  {
    if y == z then d - {y} else (d - {y})[z := d[y]]
  }

  lemma ShrunkListed<N>(z: N, c: Context<N>, t: Tree<N>, y: N, e: Context<N>, u: Tree<N>, d: Data<N>)
    requires Chosen(z, c, t, y, e, u) && z in d && y in d && Sorted(Listed(Order(Plug(c, t)), d))
    requires forall n :: n in Line(e, OnlyChild(u)) ==> n in d && n != y
    ensures Sorted(Listed(Line(e, OnlyChild(u)), Shrunk(d, z, y)))
    ensures ToMap(Listed(Line(e, OnlyChild(u)), Shrunk(d, z, y))) == ToMap(Listed(Order(Plug(c, t)), d)) - {d[z].0}
  {
    assert Datum(d, z) == d[z];
    if y != z {
      DeleteSuccessor(Before(c) + Order(t.left), z, e, u, d, Shrunk(d, z, y));
    } else {
      DeleteOwn(c, t, d, Shrunk(d, z, y));
    }
  }
}
