/** How linked nodes realise a tree shape, over a snapshot of the node fields.
    `nil` is what a missing child or parent points to. */
module RbLayout {
  import opened RbShape

  datatype Cell<N> = Cell(left: N, right: N, parent: N, color: Color)
  type Mem<!N> = map<N, Cell<N>>

  /** The node above the hole of `c`. */
  ghost function Above<N>(c: Context<N>, nil: N): N {
    if c.Top? then nil else c.id
  }

  /** The nodes under `n`, whose parent is `p`, are laid out as `t`. */
  ghost predicate Rep<N>(t: Tree<N>, n: N, p: N, nil: N, m: Mem<N>)
    ensures Rep(t, n, p, nil, m) ==> nil !in Ids(t)
    decreases t
  {
    match t
    case Leaf => n == nil
    case Node(l, id, c, r) =>
      n == id && id != nil && id in m && m[id].parent == p && m[id].color == c
      && Rep(l, m[id].left, id, nil, m) && Rep(r, m[id].right, id, nil, m)
      && id !in Ids(l) && id !in Ids(r) && Ids(l) !! Ids(r)
  }

  /** One frame: node `id` with the hole `n` on one side and `other`, laid out as `t`, on the other. */
  ghost predicate RepFrame<N>(id: N, col: Color, t: Tree<N>, other: N, up: Context<N>, nil: N, m: Mem<N>)
    requires id in m
  {
    id != nil && m[id].color == col && m[id].parent == Above(up, nil)
    && Rep(t, other, id, nil, m)
    && id !in Ids(t) && id !in ContextIds(up) && Ids(t) !! ContextIds(up)
  }

  /** The nodes above `n` up to `root` are laid out as `c`. */
  ghost predicate RepContext<N>(c: Context<N>, n: N, root: N, nil: N, m: Mem<N>)
    ensures RepContext(c, n, root, nil, m) ==> nil !in ContextIds(c)
    decreases c
  {
    match c
    case Top => n == root
    case InLeft(id, col, r, up) =>
      id in m && m[id].left == n && RepFrame(id, col, r, m[id].right, up, nil, m) && RepContext(up, id, root, nil, m)
    case InRight(l, id, col, up) =>
      id in m && m[id].right == n && RepFrame(id, col, l, m[id].left, up, nil, m) && RepContext(up, id, root, nil, m)
  }

  /** `x` is the root of subtree `t` inside context `c`, and `m` holds no other node. */
  ghost predicate At<N>(c: Context<N>, t: Tree<N>, x: N, root: N, nil: N, m: Mem<N>) {
    && Ids(t) + ContextIds(c) == m.Keys && Ids(t) !! ContextIds(c)
    && Rep(t, x, Above(c, nil), nil, m) && RepContext(c, x, root, nil, m)
  }

  ghost predicate Same<N>(s: set<N>, m: Mem<N>, m': Mem<N>) {
    forall k :: k in s && k in m ==> k in m' && m'[k] == m[k]
  }

  lemma {:induction false} KeepRep<N>(t: Tree<N>, n: N, p: N, nil: N, m: Mem<N>, m': Mem<N>)
    requires Rep(t, n, p, nil, m) && Same(Ids(t), m, m')
    ensures Rep(t, n, p, nil, m')
    decreases t
  {
    if t.Node? {
      KeepRep(t.left, m[n].left, n, nil, m, m');
      KeepRep(t.right, m[n].right, n, nil, m, m');
    }
  }

  lemma {:induction false} KeepContext<N>(c: Context<N>, n: N, root: N, nil: N, m: Mem<N>, m': Mem<N>)
    requires RepContext(c, n, root, nil, m) && Same(ContextIds(c), m, m')
    ensures RepContext(c, n, root, nil, m')
    decreases c
  {
    match c
    case Top =>
    case InLeft(id, col, r, up) =>
      KeepRep(r, m[id].right, id, nil, m, m');
      KeepContext(up, id, root, nil, m, m');
    case InRight(l, id, col, up) =>
      KeepRep(l, m[id].left, id, nil, m, m');
      KeepContext(up, id, root, nil, m, m');
  }

  // ---- moving the focus

  lemma MoveUp<N>(c: Context<N>, t: Tree<N>, x: N, root: N, nil: N, m: Mem<N>)
    requires At(c, t, x, root, nil, m) && !c.Top?
    ensures At(c.up, Fill(c, t), c.id, root, nil, m)
  {
  }

  lemma MoveDown<N>(c: Context<N>, t: Tree<N>, x: N, root: N, nil: N, m: Mem<N>)
    requires At(c, t, x, root, nil, m) && t.Node?
    ensures At(InLeft(x, t.color, t.right, c), t.left, m[x].left, root, nil, m)
    ensures At(InRight(t.left, x, t.color, c), t.right, m[x].right, root, nil, m)
  {
  }

  /** Reading the layout of the whole tree off any focus. */
  lemma {:induction false} Zoom<N>(c: Context<N>, t: Tree<N>, x: N, root: N, nil: N, m: Mem<N>)
    requires At(c, t, x, root, nil, m)
    ensures At(Top, Plug(c, t), root, root, nil, m)
    decreases c
  {
    if !c.Top? {
      MoveUp(c, t, x, root, nil, m);
      Zoom(c.up, Fill(c, t), c.id, root, nil, m);
    }
  }

  // ---- single writes

  /** Replacing the occupant of the hole: the frame above is repointed. */
  ghost predicate Repointed<N>(c: Context<N>, root: N, y: N, root': N, m: Mem<N>, m': Mem<N>) {
    match c
    case Top => root' == y
    case InLeft(id, _, _, _) => root' == root && id in m && id in m' && m'[id] == m[id].(left := y)
    case InRight(_, id, _, _) => root' == root && id in m && id in m' && m'[id] == m[id].(right := y)
  }

  lemma RepointContext<N>(c: Context<N>, x: N, y: N, root: N, root': N, nil: N, m: Mem<N>, m': Mem<N>)
    requires RepContext(c, x, root, nil, m) && Repointed(c, root, y, root', m, m')
    requires Same(ContextIds(c) - {Above(c, nil)}, m, m')
    ensures RepContext(c, y, root', nil, m')
  {
    match c
    case Top =>
    case InLeft(id, col, r, up) =>
      KeepRep(r, m[id].right, id, nil, m, m');
      KeepContext(up, id, root, nil, m, m');
    case InRight(l, id, col, up) =>
      KeepRep(l, m[id].left, id, nil, m, m');
      KeepContext(up, id, root, nil, m, m');
  }

  /** A subtree handed to another parent. */
  lemma AdoptRep<N>(t: Tree<N>, n: N, p: N, q: N, nil: N, m: Mem<N>, m': Mem<N>)
    requires Rep(t, n, p, nil, m) && Same(Ids(t) - {n}, m, m')
    requires t.Node? ==> n in m' && m'[n] == m[n].(parent := q)
    ensures Rep(t, n, q, nil, m')
  {
    if t.Node? {
      KeepRep(t.left, m[n].left, n, nil, m, m');
      KeepRep(t.right, m[n].right, n, nil, m, m');
    }
  }

  /** `x` hangs from the frame `c`, by exactly one link. */
  ghost predicate Hangs<N>(c: Context<N>, x: N, root: N, nil: N, m: Mem<N>) {
    && x in m && nil !in m && m[x].parent == Above(c, nil)
    && (c.Top? || (c.id in m && c.id != x && m[c.id].color == c.color))
    && (c.InLeft? ==> m[c.id].left == x)
    && (c.InRight? ==> m[c.id].right == x && m[c.id].left != x)
    && (c.InLeft? ==> m[c.id].right != x)
  }

  /** The nodes a rotation of `x` over its child `y` writes are all different; `b` changes sides. */
  ghost predicate Apart<N>(c: Context<N>, x: N, y: N, b: N, nil: N, m: Mem<N>) {
    && y in m && y != x && y != Above(c, nil)
    && (b != nil ==> b in m && b != x && b != y && b != Above(c, nil))
  }

  lemma HangsAt<N>(c: Context<N>, t: Tree<N>, x: N, root: N, nil: N, m: Mem<N>)
    requires At(c, t, x, root, nil, m) && t.Node?
    ensures Hangs(c, x, root, nil, m)
  {
  }

  lemma ApartLeft<N>(c: Context<N>, t: Tree<N>, x: N, root: N, nil: N, m: Mem<N>)
    requires At(c, t, x, root, nil, m) && t.Node? && t.right.Node?
    ensures x in m && m[x].right == t.right.id && t.right.id in m
    ensures Apart(c, x, t.right.id, m[t.right.id].left, nil, m)
  {
    assert Rep(t.right, m[x].right, x, nil, m);
    assert Rep(t.right.left, m[t.right.id].left, t.right.id, nil, m);
  }

  lemma ApartRight<N>(c: Context<N>, t: Tree<N>, y: N, root: N, nil: N, m: Mem<N>)
    requires At(c, t, y, root, nil, m) && t.Node? && t.left.Node?
    ensures y in m && m[y].left == t.left.id && t.left.id in m
    ensures Apart(c, y, t.left.id, m[t.left.id].right, nil, m)
  {
    assert Rep(t.left, m[y].left, y, nil, m);
    assert Rep(t.left.right, m[t.left.id].right, t.left.id, nil, m);
  }

  /** What a left rotation at `x` writes. */
  ghost predicate RotatedLeft<N>(c: Context<N>, x: N, y: N, root: N, root': N, nil: N, m: Mem<N>, m': Mem<N>) {
    && m'.Keys == m.Keys && x in m && y in m && Repointed(c, root, y, root', m, m')
    && m'[x] == Cell(m[x].left, m[y].left, y, m[x].color)
    && m'[y] == Cell(x, m[y].right, m[x].parent, m[y].color)
    && (m[y].left != nil ==> m[y].left in m && m'[m[y].left] == m[m[y].left].(parent := x))
    && Same(m.Keys - {x, y, m[y].left, Above(c, nil)}, m, m')
  }

  lemma RotateLeftParts<N>(c: Context<N>, t: Tree<N>, x: N, y: N, root: N, root': N, nil: N, m: Mem<N>, m': Mem<N>)
    requires At(c, t, x, root, nil, m) && t.Node? && t.right.Node? && y == t.right.id
    requires RotatedLeft(c, x, y, root, root', nil, m, m')
    ensures Rep(t.left, m[x].left, x, nil, m') && Rep(t.right.left, m[y].left, x, nil, m')
    ensures Rep(t.right.right, m[y].right, y, nil, m') && RepContext(c, y, root', nil, m')
  {
    var b := t.right.left;
    assert Rep(t.right, m[x].right, x, nil, m);
    assert Rep(b, m[y].left, y, nil, m);
    assert m[y].left == if b.Leaf? then nil else b.id;
    var w := {x, y, m[y].left, Above(c, nil)};
    assert Ids(t.left) !! w && Ids(b) - {m[y].left} !! w && Ids(t.right.right) !! w;
    KeepRep(t.left, m[x].left, x, nil, m, m');
    AdoptRep(b, m[y].left, y, x, nil, m, m');
    KeepRep(t.right.right, m[y].right, y, nil, m, m');
    RepointContext(c, x, y, root, root', nil, m, m');
  }

  lemma RotateLeftAt<N>(c: Context<N>, t: Tree<N>, x: N, y: N, root: N, root': N, nil: N, m: Mem<N>, m': Mem<N>)
    requires At(c, t, x, root, nil, m) && t.Node? && t.right.Node? && y == t.right.id
    requires RotatedLeft(c, x, y, root, root', nil, m, m')
    ensures At(c, RotateLeft(t), y, root', nil, m')
  {
    RotateLeftParts(c, t, x, y, root, root', nil, m, m');
    assert Rep(t.right, m[x].right, x, nil, m);
    assert Rep(RotateLeft(t).left, x, y, nil, m');
  }

  /** What a right rotation at `y` writes. */
  ghost predicate RotatedRight<N>(c: Context<N>, y: N, x: N, root: N, root': N, nil: N, m: Mem<N>, m': Mem<N>) {
    && m'.Keys == m.Keys && x in m && y in m && Repointed(c, root, x, root', m, m')
    && m'[y] == Cell(m[x].right, m[y].right, x, m[y].color)
    && m'[x] == Cell(m[x].left, y, m[y].parent, m[x].color)
    && (m[x].right != nil ==> m[x].right in m && m'[m[x].right] == m[m[x].right].(parent := y))
    && Same(m.Keys - {x, y, m[x].right, Above(c, nil)}, m, m')
  }

  lemma RotateRightParts<N>(c: Context<N>, t: Tree<N>, y: N, x: N, root: N, root': N, nil: N, m: Mem<N>, m': Mem<N>)
    requires At(c, t, y, root, nil, m) && t.Node? && t.left.Node? && x == t.left.id
    requires RotatedRight(c, y, x, root, root', nil, m, m')
    ensures Rep(t.left.left, m[x].left, x, nil, m') && Rep(t.left.right, m[x].right, y, nil, m')
    ensures Rep(t.right, m[y].right, y, nil, m') && RepContext(c, x, root', nil, m')
  {
    var b := t.left.right;
    assert Rep(t.left, m[y].left, y, nil, m);
    assert Rep(b, m[x].right, x, nil, m);
    assert m[x].right == if b.Leaf? then nil else b.id;
    var w := {x, y, m[x].right, Above(c, nil)};
    assert Ids(t.left.left) !! w && Ids(b) - {m[x].right} !! w && Ids(t.right) !! w;
    KeepRep(t.left.left, m[x].left, x, nil, m, m');
    AdoptRep(b, m[x].right, x, y, nil, m, m');
    KeepRep(t.right, m[y].right, y, nil, m, m');
    RepointContext(c, y, x, root, root', nil, m, m');
  }

  lemma RotateRightAt<N>(c: Context<N>, t: Tree<N>, y: N, x: N, root: N, root': N, nil: N, m: Mem<N>, m': Mem<N>)
    requires At(c, t, y, root, nil, m) && t.Node? && t.left.Node? && x == t.left.id
    requires RotatedRight(c, y, x, root, root', nil, m, m')
    ensures At(c, RotateRight(t), x, root', nil, m')
  {
    RotateRightParts(c, t, y, x, root, root', nil, m, m');
    assert Rep(t.left, m[y].left, y, nil, m);
    assert Rep(RotateRight(t).right, y, x, nil, m');
  }

  // ---- painting

  function Painted<N>(m: Mem<N>, n: N, col: Color): Mem<N>
    requires n in m
  {
    m[n := m[n].(color := col)]
  }

  /** The context of the sibling of `t`. */
  function Across<N>(c: Context<N>, t: Tree<N>): Context<N>
    requires !c.Top?
  {
    if c.InLeft? then InRight(t, c.id, c.color, c.up) else InLeft(c.id, c.color, t, c.up)
  }

  lemma MoveAcross<N>(c: Context<N>, t: Tree<N>, x: N, root: N, nil: N, m: Mem<N>)
    requires At(c, t, x, root, nil, m) && !c.Top?
    ensures c.id in m && x == (if c.InLeft? then m[c.id].left else m[c.id].right)
    ensures At(Across(c, t), Other(c), if c.InLeft? then m[c.id].right else m[c.id].left, root, nil, m)
  {
    MoveUp(c, t, x, root, nil, m);
    MoveDown(c.up, Fill(c, t), c.id, root, nil, m);
  }

  lemma PaintAt<N>(c: Context<N>, t: Tree<N>, x: N, root: N, nil: N, m: Mem<N>, col: Color)
    requires At(c, t, x, root, nil, m) && t.Node?
    ensures At(c, t.(color := col), x, root, nil, Painted(m, x, col))
  {
    var m' := Painted(m, x, col);
    KeepRep(t.left, m[x].left, x, nil, m, m');
    KeepRep(t.right, m[x].right, x, nil, m, m');
    KeepContext(c, x, root, nil, m, m');
  }

  lemma PaintFrame<N>(c: Context<N>, t: Tree<N>, x: N, root: N, nil: N, m: Mem<N>, col: Color)
    requires At(c, t, x, root, nil, m) && !c.Top?
    ensures c.id in m && At(Tint(c, col), t, x, root, nil, Painted(m, c.id, col))
  {
    MoveUp(c, t, x, root, nil, m);
    PaintAt(c.up, Fill(c, t), c.id, root, nil, m, col);
    MoveDown(c.up, Fill(c, t).(color := col), c.id, root, nil, Painted(m, c.id, col));
  }

  lemma PaintOther<N>(c: Context<N>, t: Tree<N>, x: N, root: N, nil: N, m: Mem<N>, col: Color)
    requires At(c, t, x, root, nil, m) && !c.Top? && Other(c).Node?
    ensures Other(c).id in m && At(WithOther(c, Other(c).(color := col)), t, x, root, nil, Painted(m, Other(c).id, col))
  {
    MoveAcross(c, t, x, root, nil, m);
    PaintAt(Across(c, t), Other(c), Other(c).id, root, nil, m, col);
    MoveAcross(Across(c, t), Other(c).(color := col), Other(c).id, root, nil, Painted(m, Other(c).id, col));
  }

  // ---- the links the fixup loops follow

  lemma OccupantAt<N>(c: Context<N>, t: Tree<N>, x: N, root: N, nil: N, m: Mem<N>)
    requires At(c, t, x, root, nil, m)
    ensures Heads(t, x, nil, m) && (t.Node? ==> m[x].parent == Above(c, nil)) && nil !in m
    ensures x == root <==> c.Top?
  {
    if !c.Top? {
      RootAbove(c, x, root, nil, m);
    }
  }

  lemma ParentAt<N>(c: Context<N>, t: Tree<N>, x: N, root: N, nil: N, m: Mem<N>)
    requires At(c, t, x, root, nil, m) && !c.Top?
    ensures c.id in m && c.id != nil && m[c.id].color == c.color && m[c.id].parent == Above(c.up, nil) && nil !in m
    ensures t.Node? ==> x in m && m[x].parent == c.id && m[x].color == t.color && x == t.id
    ensures c.InLeft? ==> m[c.id].left == x
    ensures c.InRight? ==> m[c.id].right == x
    ensures t.Node? || Other(c).Node? ==> m[c.id].left != m[c.id].right
  {
  }

  /** `n` is the root of a subtree laid out as `t`. */
  ghost predicate Heads<N>(t: Tree<N>, n: N, nil: N, m: Mem<N>) {
    if t.Leaf? then n == nil else n == t.id && n in m && m[n].color == t.color
  }

  lemma SiblingAt<N>(c: Context<N>, t: Tree<N>, x: N, root: N, nil: N, m: Mem<N>)
    requires At(c, t, x, root, nil, m) && !c.Top?
    ensures c.id in m
    ensures Heads(Other(c), if c.InLeft? then m[c.id].right else m[c.id].left, nil, m)
  {
  }

  /** Everything one pass of the insertion loop reads. */
  lemma FamilyAt<N>(c: Context<N>, t: Tree<N>, z: N, root: N, nil: N, m: Mem<N>)
    requires At(c, t, z, root, nil, m) && t.Node? && !c.Top? && !c.up.Top?
    ensures z in m && m[z].parent == c.id && c.id in m && m[c.id].parent == c.up.id && c.up.id in m && nil !in m
    ensures m[c.up.id].left == c.id <==> c.up.InLeft?
    ensures m[c.id].left == z <==> c.InLeft?
    ensures m[c.id].right == z <==> c.InRight?
    ensures Heads(Other(c.up), if c.up.InLeft? then m[c.up.id].right else m[c.up.id].left, nil, m)
  {
    ParentAt(c, t, z, root, nil, m);
    MoveUp(c, t, z, root, nil, m);
    ParentAt(c.up, Fill(c, t), c.id, root, nil, m);
    SiblingAt(c.up, Fill(c, t), c.id, root, nil, m);
  }

  /** Everything one pass of the deletion loop reads. */
  lemma KinAt<N>(c: Context<N>, t: Tree<N>, x: N, root: N, nil: N, m: Mem<N>)
    requires At(c, t, x, root, nil, m) && !c.Top? && Other(c).Node?
    ensures c.id in m && m[c.id].color == c.color && m[c.id].left != m[c.id].right && nil !in m
    ensures c.InLeft? ==> m[c.id].left == x && m[c.id].right == Other(c).id
    ensures c.InRight? ==> m[c.id].right == x && m[c.id].left == Other(c).id
    ensures Other(c).id in m && m[Other(c).id].color == Other(c).color
    ensures Heads(Other(c).left, m[Other(c).id].left, nil, m)
    ensures Heads(Other(c).right, m[Other(c).id].right, nil, m)
  {
    MoveAcross(c, t, x, root, nil, m);
    MoveDown(Across(c, t), Other(c), Other(c).id, root, nil, m);
  }

  /** Below the top, the root is one of the nodes above. */
  lemma {:induction false} RootAbove<N>(c: Context<N>, x: N, root: N, nil: N, m: Mem<N>)
    requires RepContext(c, x, root, nil, m) && !c.Top?
    ensures root in ContextIds(c)
    decreases c
  {
    if !c.up.Top? {
      RootAbove(c.up, c.id, root, nil, m);
    }
  }

  /** Painting parent and uncle black and grandparent red, seen from the grandparent. */
  lemma RecolorAt<N>(c: Context<N>, t: Tree<N>, x: N, root: N, nil: N, m: Mem<N>)
    requires At(c, t, x, root, nil, m) && !c.Top? && !c.up.Top? && Other(c.up).Node?
    ensures c.id in m && Other(c.up).id in m && c.up.id in m
    ensures At(c.up.up, Recolored(c, t), c.up.id, root, nil,
               Painted(Painted(Painted(m, c.id, Black), Other(c.up).id, Black), c.up.id, Red))
  {
    PaintFrame(c, t, x, root, nil, m, Black);
    var m1, c1 := Painted(m, c.id, Black), Tint(c, Black);
    MoveUp(c1, t, x, root, nil, m1);
    PaintOther(c.up, Fill(c1, t), c.id, root, nil, m1, Black);
    var m2, c2 := Painted(m1, Other(c.up).id, Black), WithOther(c.up, Blackened(Other(c.up)));
    PaintFrame(c2, Fill(c1, t), c.id, root, nil, m2, Red);
    MoveUp(Tint(c2, Red), Fill(c1, t), c.id, root, nil, Painted(m2, c.up.id, Red));
  }

  /** Painting the parent black and the grandparent red, seen from the grandparent. */
  lemma SwapColorsAt<N>(c: Context<N>, t: Tree<N>, x: N, root: N, nil: N, m: Mem<N>)
    requires At(c, t, x, root, nil, m) && !c.Top? && !c.up.Top?
    ensures c.id in m && c.up.id in m
    ensures At(c.up.up, Fill(Tint(c.up, Red), Fill(Tint(c, Black), t)),
               c.up.id, root, nil, Painted(Painted(m, c.id, Black), c.up.id, Red))
  {
    PaintFrame(c, t, x, root, nil, m, Black);
    var m1, c1 := Painted(m, c.id, Black), Tint(c, Black);
    MoveUp(c1, t, x, root, nil, m1);
    PaintFrame(c.up, Fill(c1, t), c.id, root, nil, m1, Red);
    MoveUp(Tint(c.up, Red), Fill(c1, t), c.id, root, nil, Painted(m1, c.up.id, Red));
  }

  /** Painting the left or the right child of the node in focus. */
  lemma PaintChild<N>(c: Context<N>, t: Tree<N>, x: N, root: N, nil: N, m: Mem<N>, col: Color)
    requires At(c, t, x, root, nil, m) && t.Node?
    ensures t.left.Node? ==> t.left.id in m
    ensures t.right.Node? ==> t.right.id in m
    ensures t.left.Node? ==>
      At(c, t.(left := t.left.(color := col)), x, root, nil, Painted(m, t.left.id, col))
    ensures t.right.Node? ==>
      At(c, t.(right := t.right.(color := col)), x, root, nil, Painted(m, t.right.id, col))
  {
    MoveDown(c, t, x, root, nil, m);
    if t.left.Node? {
      var d := InLeft(x, t.color, t.right, c);
      PaintAt(d, t.left, t.left.id, root, nil, m, col);
      MoveUp(d, t.left.(color := col), t.left.id, root, nil, Painted(m, t.left.id, col));
    }
    if t.right.Node? {
      var d := InRight(t.left, x, t.color, c);
      PaintAt(d, t.right, t.right.id, root, nil, m, col);
      MoveUp(d, t.right.(color := col), t.right.id, root, nil, Painted(m, t.right.id, col));
    }
  }

  /** Painting a red sibling black and the parent red, seen from the parent. */
  lemma SpinSiblingAt<N>(c: Context<N>, t: Tree<N>, x: N, root: N, nil: N, m: Mem<N>)
    requires At(c, t, x, root, nil, m) && !c.Top? && Other(c).Node?
    ensures c.id in m && Other(c).id in m
    ensures At(c.up, Fill(Tint(WithOther(c, Blackened(Other(c))), Red), t), c.id,
               root, nil, Painted(Painted(m, Other(c).id, Black), c.id, Red))
  {
    PaintOther(c, t, x, root, nil, m, Black);
    var c1, m1 := WithOther(c, Blackened(Other(c))), Painted(m, Other(c).id, Black);
    PaintFrame(c1, t, x, root, nil, m1, Red);
    MoveUp(Tint(c1, Red), t, x, root, nil, Painted(m1, c.id, Red));
  }

  /** Painting the near nephew black and the sibling red, seen from the sibling. */
  lemma StraightenAt<N>(c: Context<N>, t: Tree<N>, x: N, root: N, nil: N, m: Mem<N>)
    requires At(c, t, x, root, nil, m) && !c.Top? && Other(c).Node? && Near(c).Node?
    ensures Near(c).id in m && Other(c).id in m
    ensures At(Across(c, t), Sided(c, Blackened(Near(c)), Other(c).id, Red, Far(c)), Other(c).id,
               root, nil, Painted(Painted(m, Near(c).id, Black), Other(c).id, Red))
  {
    MoveAcross(c, t, x, root, nil, m);
    PaintChild(Across(c, t), Other(c), Other(c).id, root, nil, m, Black);
    var w := Sided(c, Blackened(Near(c)), Other(c).id, Other(c).color, Far(c));
    PaintAt(Across(c, t), w, Other(c).id, root, nil, Painted(m, Near(c).id, Black), Red);
  }

  /** Handing the colour of the parent to the sibling and blackening parent and far nephew, seen from the parent. */
  lemma LiftAt<N>(c: Context<N>, t: Tree<N>, x: N, root: N, nil: N, m: Mem<N>)
    requires At(c, t, x, root, nil, m) && !c.Top? && Other(c).Node? && Far(c).Node?
    ensures c.id in m && Far(c).id in m && Other(c).id in m
    ensures At(c.up, Fill(Tint(WithOther(c, Sided(c, Near(c), Other(c).id, c.color, Blackened(Far(c)))), Black), t),
               c.id, root, nil, Painted(Painted(Painted(m, Other(c).id, c.color), c.id, Black), Far(c).id, Black))
  {
    PaintOther(c, t, x, root, nil, m, c.color);
    var c1, m1 := WithOther(c, Other(c).(color := c.color)), Painted(m, Other(c).id, c.color);
    PaintFrame(c1, t, x, root, nil, m1, Black);
    var c2, m2 := Tint(c1, Black), Painted(m1, c.id, Black);
    MoveAcross(c2, t, x, root, nil, m2);
    PaintChild(Across(c2, t), Other(c2), Other(c2).id, root, nil, m2, Black);
    var w, m3 := Sided(c, Near(c), Other(c).id, c.color, Blackened(Far(c))), Painted(m2, Far(c).id, Black);
    MoveUp(Across(c2, t), w, Other(c).id, root, nil, m3);
  }

  // ---- entering and leaving a tree

  /** What hanging the fresh red node `z` into an empty hole writes. */
  ghost predicate Attached<N>(c: Context<N>, z: N, root: N, root': N, nil: N, m: Mem<N>, m': Mem<N>) {
    && m'.Keys == m.Keys + {z} && m'[z] == Cell(nil, nil, Above(c, nil), Red)
    && Repointed(c, root, z, root', m, m') && Same(m.Keys - {Above(c, nil)}, m, m')
  }

  lemma AttachAt<N>(c: Context<N>, z: N, root: N, root': N, nil: N, m: Mem<N>, m': Mem<N>)
    requires At(c, Leaf, nil, root, nil, m) && z !in m && z != nil && Attached(c, z, root, root', nil, m, m')
    ensures At(c, Node(Leaf, z, Red, Leaf), z, root', nil, m')
  {
    RepointContext(c, nil, z, root, root', nil, m, m');
  }

  /** What splicing out `y` in favour of its only child `x` writes. */
  ghost predicate Spliced<N>(c: Context<N>, y: N, x: N, root: N, root': N, nil: N, m: Mem<N>, m': Mem<N>) {
    && m'.Keys == m.Keys - {y}
    && (x != nil ==> x in m && x in m' && m'[x] == m[x].(parent := Above(c, nil)))
    && Repointed(c, root, x, root', m, m') && Same(m.Keys - {y, x, Above(c, nil)}, m, m')
  }

  lemma SpliceAt<N>(c: Context<N>, t: Tree<N>, y: N, x: N, root: N, root': N, nil: N, m: Mem<N>, m': Mem<N>)
    requires At(c, t, y, root, nil, m) && t.Node? && (t.left.Leaf? || t.right.Leaf?)
    requires x == (if t.left.Node? then m[y].left else m[y].right)
    requires Spliced(c, y, x, root, root', nil, m, m')
    ensures At(c, OnlyChild(t), x, root', nil, m')
  {
    var s := OnlyChild(t);
    assert Rep(s, x, y, nil, m);
    AdoptRep(s, x, y, Above(c, nil), nil, m, m');
    RepointContext(c, y, x, root, root', nil, m, m');
  }

  lemma SpliceReady<N>(c: Context<N>, t: Tree<N>, y: N, root: N, nil: N, m: Mem<N>)
    requires At(c, t, y, root, nil, m) && t.Node? && (t.left.Leaf? || t.right.Leaf?)
    ensures Hangs(c, y, root, nil, m) && m[y].color == t.color
    ensures (m[y].left == nil <==> t.left.Leaf?) && (m[y].right == nil <==> t.right.Leaf?)
    ensures var x := if m[y].left != nil then m[y].left else m[y].right;
      x != nil ==> x in m && x != y && x != Above(c, nil)
  {
    HangsAt(c, t, y, root, nil, m);
    assert Rep(t.left, m[y].left, y, nil, m) && Rep(t.right, m[y].right, y, nil, m);
    assert Rep(OnlyChild(t), if t.left.Node? then m[y].left else m[y].right, y, nil, m);
  }
}
