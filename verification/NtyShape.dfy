/** What removal by relinking the successor does to shapes and layouts. */
module NtyShape {
  import opened RbShape
  import opened RbLayout

  /** The frames `d` on top of the frames `c`. */
  function Over<N>(d: Context<N>, c: Context<N>): Context<N> {
    match d
    case Top => c
    case InLeft(id, col, r, up) => InLeft(id, col, r, Over(up, c))
    case InRight(l, id, col, up) => InRight(l, id, col, Over(up, c))
  }

  lemma {:induction false} OverPlug<N>(d: Context<N>, c: Context<N>, s: Tree<N>)
    ensures Plug(Over(d, c), s) == Plug(c, Plug(d, s))
    decreases d
  {
    if !d.Top? {
      OverPlug(d.up, c, Fill(d, s));
    }
  }

  /** The root of a subtree as a link. */
  function Head<N>(t: Tree<N>, nil: N): N {
    if t.Leaf? then nil else t.id
  }

  lemma {:induction false} Dive<N>(d: Context<N>, c: Context<N>, s: Tree<N>, root: N, nil: N, m: Mem<N>)
    requires At(c, Plug(d, s), Head(Plug(d, s), nil), root, nil, m)
    ensures At(Over(d, c), s, Head(s, nil), root, nil, m)
    decreases d
  {
    if !d.Top? {
      Dive(d.up, c, Fill(d, s), root, nil, m);
      MoveDown(Over(d.up, c), Fill(d, s), d.id, root, nil, m);
    }
  }

  lemma {:induction false} Rise<N>(d: Context<N>, c: Context<N>, s: Tree<N>, root: N, nil: N, m: Mem<N>)
    requires At(Over(d, c), s, Head(s, nil), root, nil, m)
    ensures At(c, Plug(d, s), Head(Plug(d, s), nil), root, nil, m)
    decreases d
  {
    if !d.Top? {
      MoveUp(Over(d, c), s, Head(s, nil), root, nil, m);
      Rise(d.up, c, Fill(d, s), root, nil, m);
    }
  }

  /** What putting the node `y` in the place of `z` writes. */
  ghost predicate Substituted<N>(c: Context<N>, z: N, y: N, root: N, root': N, nil: N, m: Mem<N>, m': Mem<N>) {
    && z in m && m'.Keys == m.Keys - {z} + {y} && m'[y] == m[z] && Repointed(c, root, y, root', m, m')
    && (m[z].left != nil ==> m[z].left in m && m[z].left in m' && m'[m[z].left] == m[m[z].left].(parent := y))
    && (m[z].right != nil ==> m[z].right in m && m[z].right in m' && m'[m[z].right] == m[m[z].right].(parent := y))
    && Same(m.Keys - {z, m[z].left, m[z].right, Above(c, nil)}, m, m')
  }

  lemma SubstituteParts<N>(c: Context<N>, t: Tree<N>, z: N, y: N, root: N, root': N, nil: N, m: Mem<N>, m': Mem<N>)
    requires At(c, t, z, root, nil, m) && t.Node? && y !in m && y != nil
    requires Substituted(c, z, y, root, root', nil, m, m')
    ensures Rep(t.left, m[z].left, y, nil, m') && Rep(t.right, m[z].right, y, nil, m')
    ensures RepContext(c, y, root', nil, m')
  {
    assert Rep(t.left, m[z].left, z, nil, m) && Rep(t.right, m[z].right, z, nil, m);
    assert m[z].left == Head(t.left, nil) && m[z].right == Head(t.right, nil);
    var w := {z, m[z].left, m[z].right, Above(c, nil)};
    assert Ids(t.left) - {m[z].left} !! w && Ids(t.right) - {m[z].right} !! w;
    AdoptRep(t.left, m[z].left, z, y, nil, m, m');
    AdoptRep(t.right, m[z].right, z, y, nil, m, m');
    RepointContext(c, z, y, root, root', nil, m, m');
  }

  lemma SubstituteAt<N>(c: Context<N>, t: Tree<N>, z: N, y: N, root: N, root': N, nil: N, m: Mem<N>, m': Mem<N>)
    requires At(c, t, z, root, nil, m) && t.Node? && y !in m && y != nil
    requires Substituted(c, z, y, root, root', nil, m, m')
    ensures At(c, t.(id := y), y, root', nil, m')
  {
    SubstituteParts(c, t, z, y, root, root', nil, m, m');
  }

  // ---- the path to the successor

  /** All frames were entered to the left. */
  predicate Leftward<N>(d: Context<N>) {
    d.Top? || (d.InLeft? && Leftward(d.up))
  }

  /** The nodes after the hole, inside the path. */
  function Behind<N>(d: Context<N>): seq<N> {
    if d.InLeft? then [d.id] + Order(d.right) + Behind(d.up) else []
  }

  lemma {:induction false} LeftwardLine<N>(d: Context<N>, c: Context<N>)
    requires Leftward(d)
    ensures Before(Over(d, c)) == Before(c) && After(Over(d, c)) == Behind(d) + After(c)
    decreases d
  {
    if d.InLeft? {
      LeftwardLine(d.up, c);
    }
  }

  /** The leftmost node comes first. */
  lemma {:induction false} LeftwardFirst<N>(d: Context<N>, u: Tree<N>)
    requires Leftward(d) && u.Node? && u.left.Leaf?
    ensures Order(Plug(d, u)) != [] && Order(Plug(d, u))[0] == u.id
  {
    PlugLine(d, u);
    LeftwardBefore(d);
    assert Order(u) == [u.id] + Order(u.right);
  }

  lemma {:induction false} LeftwardBefore<N>(d: Context<N>)
    requires Leftward(d)
    ensures Before(d) == []
  {
    if d.InLeft? {
      LeftwardBefore(d.up);
    }
  }

  /** Renaming a frame does not matter to balance. */
  lemma {:induction false} RenameFits<N>(d: Context<N>, l: Tree<N>, z: N, y: N, col: Color, c: Context<N>, h: nat,
      red: bool)
    requires Fits(Over(d, InRight(l, z, col, c)), h, red)
    ensures Fits(Over(d, InRight(l, y, col, c)), h, red)
    decreases d
  {
    if !d.Top? {
      RenameFits(d.up, l, z, y, col, c, h + Step(d.color), d.color.Red?);
    }
  }

  /** The place of the successor `u` below `z`, and the same place below its substitute. */
  lemma RenameBalanced<N>(d: Context<N>, l: Tree<N>, z: N, y: N, col: Color, c: Context<N>, u: Tree<N>)
    requires var e := Over(d, InRight(l, z, col, c)); Balanced(Plug(e, u)) && !IsRed(Plug(e, u))
    ensures var e' := Over(d, InRight(l, y, col, c)); Balanced(Plug(e', u)) && !IsRed(Plug(e', u))
  {
    var e, e' := Over(d, InRight(l, z, col, c)), Over(d, InRight(l, y, col, c));
    UnplugBalanced(e, u);
    RenameFits(d, l, z, y, col, c, BlackHeight(u), IsRed(u));
    PlugBalanced(e', u);
  }

  lemma Reassociate<N>(a: seq<N>, z: N, y: N, r: seq<N>, b: seq<N>)
    ensures (a + [z]) + ([y] + r) + b == a + [z] + ([y] + r + b)
    ensures (a + [y]) + r + b == a + ([y] + r + b)
  {
  }

  /** With the successor in the place of `z`, the line has lost exactly `z`. */
  lemma RenameLine<N>(d: Context<N>, l: Tree<N>, z: N, col: Color, c: Context<N>, u: Tree<N>)
    requires Leftward(d) && u.Node? && u.left.Leaf?
    ensures var a, b := Before(c) + Order(l), [u.id] + Order(u.right) + (Behind(d) + After(c));
      Line(Over(d, InRight(l, z, col, c)), u) == a + [z] + b
      && Line(Over(d, InRight(l, u.id, col, c)), u.right) == a + b
  {
    LeftwardLine(d, InRight(l, z, col, c));
    LeftwardLine(d, InRight(l, u.id, col, c));
    assert Order(u) == [u.id] + Order(u.right);
    Reassociate(Before(c) + Order(l), z, u.id, Order(u.right), Behind(d) + After(c));
  }

  /** The links of a node in focus lead to different nodes, none of them above it. */
  lemma KidsAt<N>(c: Context<N>, t: Tree<N>, z: N, root: N, nil: N, m: Mem<N>)
    requires At(c, t, z, root, nil, m) && t.Node?
    ensures z in m && nil !in m && m[z].left == Head(t.left, nil) && m[z].right == Head(t.right, nil)
    ensures t.left.Node? ==> m[z].left in m && m[z].left != z && m[z].left != Above(c, nil) && m[z].left != m[z].right
    ensures t.right.Node? ==> m[z].right in m && m[z].right != z && m[z].right != Above(c, nil)
  {
    assert Rep(t.left, m[z].left, z, nil, m) && Rep(t.right, m[z].right, z, nil, m);
  }

  /** Descending into the renamed path. */
  lemma Descend<N>(d: Context<N>, l: Tree<N>, y: N, col: Color, c: Context<N>, s: Tree<N>, root: N, nil: N, m: Mem<N>)
    requires At(c, Node(l, y, col, Plug(d, s)), y, root, nil, m)
    ensures At(Over(d, InRight(l, y, col, c)), s, Head(s, nil), root, nil, m)
  {
    MoveDown(c, Node(l, y, col, Plug(d, s)), y, root, nil, m);
    KidsAt(c, Node(l, y, col, Plug(d, s)), y, root, nil, m);
    Dive(d, InRight(l, y, col, c), s, root, nil, m);
  }

  /** Ascending to the node that is to be replaced. */
  lemma Ascend<N>(d: Context<N>, l: Tree<N>, z: N, col: Color, c: Context<N>, s: Tree<N>, root: N, nil: N, m: Mem<N>)
    requires At(Over(d, InRight(l, z, col, c)), s, Head(s, nil), root, nil, m)
    ensures At(c, Node(l, z, col, Plug(d, s)), z, root, nil, m)
  {
    Rise(d, InRight(l, z, col, c), s, root, nil, m);
    MoveUp(InRight(l, z, col, c), Plug(d, s), Head(Plug(d, s), nil), root, nil, m);
  }

  // ---- finding a node's place

  /** Every node of a tree has a place in it. */
  lemma {:induction false} Place<N>(c: Context<N>, t: Tree<N>, n: N) returns (e: Context<N>, u: Tree<N>)
    requires n in Ids(t)
    ensures Plug(e, u) == Plug(c, t) && u.Node? && u.id == n
    decreases t
  {
    if n == t.id {
      e, u := c, t;
    } else if n in Ids(t.left) {
      e, u := Place(InLeft(t.id, t.color, t.right, c), t.left, n);
    } else {
      e, u := Place(InRight(t.left, t.id, t.color, c), t.right, n);
    }
  }

  /** Focusing on a place of the tree. */
  lemma {:induction false} FocusOn<N>(c: Context<N>, t: Tree<N>, root: N, nil: N, m: Mem<N>)
    requires At(Top, Plug(c, t), root, root, nil, m) && t.Node?
    ensures At(c, t, t.id, root, nil, m)
    decreases c
  {
    if !c.Top? {
      FocusOn(c.up, Fill(c, t), root, nil, m);
      MoveDown(c.up, Fill(c, t), c.id, root, nil, m);
    }
  }

  // ---- the sequence of nodes

  ghost predicate Distinct<N>(s: seq<N>) {
    forall i, j :: 0 <= i < j < |s| ==> s[i] != s[j]
  }

  /** A tree that is laid out holds no node twice. */
  lemma {:induction false} OrderDistinct<N>(t: Tree<N>, n: N, p: N, nil: N, m: Mem<N>)
    requires Rep(t, n, p, nil, m)
    ensures Distinct(Order(t)) && nil !in Order(t)
    decreases t
  {
    if t.Node? {
      OrderDistinct(t.left, m[n].left, n, nil, m);
      OrderDistinct(t.right, m[n].right, n, nil, m);
      OrderIds(t.left);
      OrderIds(t.right);
      Joined(Order(t.left), n, Order(t.right));
    }
  }

  lemma Joined<N>(a: seq<N>, x: N, b: seq<N>)
    requires Distinct(a) && Distinct(b) && x !in a && x !in b && forall y :: y in a ==> y !in b
    ensures Distinct(a + [x] + b)
  {
    var s := a + [x] + b;
    forall i, j | 0 <= i < j < |s| ensures s[i] != s[j] {
      assert i < |a| ==> s[i] in a;
      assert i > |a| ==> s[i] == b[i - |a| - 1];
      assert j < |a| ==> s[j] in a;
      assert j > |a| ==> s[j] == b[j - |a| - 1] && s[j] in b;
    }
  }

  /** The element behind position `i`. */
  function Following<N>(s: seq<N>, i: nat, nil: N): N
    requires i < |s|
  {
    if i + 1 < |s| then s[i + 1] else nil
  }

  lemma FollowingSplit<N>(a: seq<N>, x: N, b: seq<N>, i: nat, nil: N)
    requires Distinct(a + [x] + b) && i < |a + [x] + b| && (a + [x] + b)[i] == x
    ensures i == |a| && Following(a + [x] + b, i, nil) == if b == [] then nil else b[0]
  {
    var s := a + [x] + b;
    assert s[|a|] == x;
  }
}
