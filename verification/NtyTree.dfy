/** The intrusive red-black tree of the coroutine library: null leaves, and removal that relinks nodes. */
module NtyTree {
  import opened RbShape
  import opened RbLayout
  import opened NtyShape

  class NtyNode {
    var left: NtyNode?
    var right: NtyNode?
    var parent: NtyNode?
    var color: Color
    /** What the comparison function of the tree compares. */
    const key: int

    constructor (key: int)
      ensures this.key == key
    {
      this.key, left, right, parent, color := key, null, null, null, Black;
    }
  }

  type Link = NtyNode?

  /** The comparison function of a tree: negative, zero or positive, as in C. */
  type Comparison = (int, int) -> int

  /** The comparison puts any two keys in one order, and orders chains of keys from end to end. */
  ghost predicate Ordering(cmp: Comparison) {
    && (forall k, l :: cmp(k, l) < 0 <==> cmp(l, k) > 0)
    && (forall k, l, m :: cmp(k, l) < 0 && cmp(l, m) < 0 ==> cmp(k, m) < 0)
  }

  /** The comparisons of the library's two trees, by wake-up time and by awaited descriptor. */
  function NumberCompare(k: int, l: int): int {
    if k < l then -1 else if k == l then 0 else 1
  }

  lemma NumbersOrdered()
    ensures Ordering(NumberCompare)
  {
  }

  /** The nodes come in strictly growing key order. */
  ghost predicate Ascending(cmp: Comparison, s: seq<Link>) {
    && (forall i :: 0 <= i < |s| ==> s[i] != null)
    && (forall i, j :: 0 <= i < j < |s| ==> cmp(s[i].key, s[j].key) < 0)
  }

  ghost predicate Below(cmp: Comparison, s: seq<Link>, key: int) {
    forall i :: 0 <= i < |s| ==> s[i] != null && cmp(s[i].key, key) < 0
  }

  ghost predicate Beyond(cmp: Comparison, s: seq<Link>, key: int) {
    forall i :: 0 <= i < |s| ==> s[i] != null && cmp(key, s[i].key) < 0
  }

  /** The key belongs into the hole of the context. */
  ghost predicate Gap(cmp: Comparison, c: Context<Link>, key: int) {
    Below(cmp, Before(c), key) && Beyond(cmp, After(c), key)
  }

  lemma AscendingSplit(cmp: Comparison, a: seq<Link>, x: NtyNode, b: seq<Link>)
    requires Ascending(cmp, a + [x] + b)
    ensures Below(cmp, a, x.key) && Beyond(cmp, b, x.key)
  {
    var s := a + [x] + b;
    assert s[|a|] == x;
    forall i | 0 <= i < |a| ensures a[i] != null && cmp(a[i].key, x.key) < 0 {
      assert s[i] == a[i];
    }
    forall i | 0 <= i < |b| ensures b[i] != null && cmp(x.key, b[i].key) < 0 {
      assert s[|a| + 1 + i] == b[i];
    }
  }

  lemma AscendingInsert(cmp: Comparison, a: seq<Link>, x: NtyNode, b: seq<Link>)
    requires Ascending(cmp, a + b) && Below(cmp, a, x.key) && Beyond(cmp, b, x.key)
    ensures Ascending(cmp, a + [x] + b)
  {
    var s, r := a + b, a + [x] + b;
    forall i | 0 <= i < |r| ensures r[i] != null {
      assert i != |a| ==> r[i] == s[if i < |a| then i else i - 1];
    }
    forall i, j | 0 <= i < j < |r| ensures cmp(r[i].key, r[j].key) < 0 {
      assert i < |a| ==> r[i] == s[i] && r[i] == a[i];
      assert i > |a| ==> r[i] == s[i - 1];
      assert j < |a| ==> r[j] == s[j];
      assert j > |a| ==> r[j] == s[j - 1] && r[j] == b[j - 1 - |a|];
    }
  }

  /** Removal cannot upset the order. */
  lemma AscendingDrop(cmp: Comparison, a: seq<Link>, x: Link, b: seq<Link>)
    requires Ascending(cmp, a + [x] + b)
    ensures Ascending(cmp, a + b)
  {
    var s, r := a + [x] + b, a + b;
    assert forall i :: 0 <= i < |r| ==> r[i] == s[if i < |a| then i else i + 1];
  }

  /** The descent towards a key keeps it in the gap. */
  lemma GapStep(cmp: Comparison, c: Context<Link>, t: Tree<Link>, x: NtyNode, key: int)
    requires Ordering(cmp) && t.Node? && t.id == x && Ascending(cmp, Line(c, t)) && Gap(cmp, c, key)
    ensures cmp(key, x.key) < 0 ==> Gap(cmp, InLeft(x, t.color, t.right, c), key)
    ensures cmp(key, x.key) > 0 ==> Gap(cmp, InRight(t.left, x, t.color, c), key)
  {
    Regroup(Before(c), Order(t.left), x, Order(t.right), After(c));
    AscendingSplit(cmp, Before(c) + Order(t.left), x, Order(t.right) + After(c));
    if cmp(key, x.key) < 0 {
      BeyondGrow(cmp, x, Order(t.right), After(c), key);
    } else if cmp(key, x.key) > 0 {
      BelowGrow(cmp, Before(c) + Order(t.left), x, key);
    }
  }

  lemma BeyondGrow(cmp: Comparison, x: NtyNode, b: seq<Link>, e: seq<Link>, key: int)
    requires Ordering(cmp) && Beyond(cmp, b + e, x.key) && cmp(key, x.key) < 0
    ensures Beyond(cmp, [x] + b + e, key)
  {
    var s := [x] + b + e;
    forall i | 0 <= i < |s| ensures s[i] != null && cmp(key, s[i].key) < 0 {
      assert i > 0 ==> s[i] == (b + e)[i - 1];
    }
  }

  lemma BelowGrow(cmp: Comparison, a: seq<Link>, x: NtyNode, key: int)
    requires Ordering(cmp) && Below(cmp, a, x.key) && cmp(x.key, key) < 0
    ensures Below(cmp, a + [x], key)
  {
  }

  class NtyTree {
    const cmp: Comparison
    var root: NtyNode?
    ghost var nodes: set<NtyNode>
    ghost var shape: Tree<Link>
    /** How many rotations have been made; only the two rotations change it. */
    ghost var turns: nat

    /** `RB_INIT` */
    constructor (cmp: Comparison)
      ensures Valid() && nodes == {} && Sequence() == [] && this.cmp == cmp
    {
      this.cmp := cmp;
      root, nodes, shape, turns := null, {}, Leaf, 0;
    }

    ghost function Links(): Mem<Link>
      reads this`nodes, nodes
    {
      map n: NtyNode? | n in nodes :: Cell(n.left, n.right, n.parent, n.color)
    }

    ghost predicate Focus(c: Context<Link>, t: Tree<Link>, x: Link)
      reads this`root, this`nodes, nodes
    {
      At(c, t, x, root, null, Links())
    }

    /** Linked both ways, balanced and black at the root. */
    ghost predicate Repaired(after: Tree<Link>)
      reads this`root, this`nodes, nodes
    {
      Focus(Top, after, root) && Balanced(after) && !IsRed(after)
    }

    ghost predicate Valid()
      reads this`root, this`nodes, this`shape, nodes
    {
      Repaired(shape)
    }

    /** The nodes from left to right. */
    ghost function Sequence(): seq<Link>
      reads this`shape
    {
      Order(shape)
    }

    // ---- rotations

    /** `RB_ROTATE_LEFT` */
    method LeftRotate(x: NtyNode, ghost c: Context<Link>)
      requires Hangs(c, x, root, null, Links()) && x.right != null && x.right in nodes
      requires Apart(c, x, x.right, x.right.left, null, Links())
      modifies this`root, this`turns, nodes
      ensures RotatedLeft(c, x, old(x.right), old(root), root, null, old(Links()), Links())
      ensures turns == old(turns) + 1
    {
      var y := x.right;
      x.right := y.left;
      if y.left != null {
        y.left.parent := x;
      }
      y.parent := x.parent;
      if x.parent != null {
        if x == x.parent.left {
          x.parent.left := y;
        } else {
          x.parent.right := y;
        }
      } else {
        root := y;
      }
      y.left := x;
      x.parent := y;
      turns := turns + 1;
    }

    /** `RB_ROTATE_RIGHT` */
    method RightRotate(y: NtyNode, ghost c: Context<Link>)
      requires Hangs(c, y, root, null, Links()) && y.left != null && y.left in nodes
      requires Apart(c, y, y.left, y.left.right, null, Links())
      modifies this`root, this`turns, nodes
      ensures RotatedRight(c, y, old(y.left), old(root), root, null, old(Links()), Links())
      ensures turns == old(turns) + 1
    {
      var x := y.left;
      y.left := x.right;
      if x.right != null {
        x.right.parent := y;
      }
      x.parent := y.parent;
      if y.parent != null {
        if y == y.parent.left {
          y.parent.left := x;
        } else {
          y.parent.right := x;
        }
      } else {
        root := x;
      }
      x.right := y;
      y.parent := x;
      turns := turns + 1;
    }

    method RotateLeftAtFocus(x: NtyNode, ghost c: Context<Link>, ghost t: Tree<Link>)
      requires Focus(c, t, x) && t.Node? && t.right.Node?
      modifies this`root, this`turns, nodes
      ensures Focus(c, RotateLeft(t), t.right.id)
      ensures turns == old(turns) + 1
    {
      ghost var m := Links();
      HangsAt(c, t, x, root, null, m);
      ApartLeft(c, t, x, root, null, m);
      LeftRotate(x, c);
      RotateLeftAt(c, t, x, t.right.id, old(root), root, null, m, Links());
    }

    method RotateRightAtFocus(y: NtyNode, ghost c: Context<Link>, ghost t: Tree<Link>)
      requires Focus(c, t, y) && t.Node? && t.left.Node?
      modifies this`root, this`turns, nodes
      ensures Focus(c, RotateRight(t), t.left.id)
      ensures turns == old(turns) + 1
    {
      ghost var m := Links();
      HangsAt(c, t, y, root, null, m);
      ApartRight(c, t, y, root, null, m);
      RightRotate(y, c);
      RotateRightAt(c, t, y, t.left.id, old(root), root, null, m, Links());
    }

    method Paint(n: NtyNode, col: Color)
      requires n in nodes
      modifies n`color
      ensures Links() == Painted(old(Links()), n, col)
    {
      n.color := col;
    }

    // ---- the removal loop

    /** Black, as the loop tests it: a missing node counts as black. */
    predicate IsBlack(n: Link)
      reads n
    {
      n == null || n.color == Black
    }

    /** Red sibling on the right. */
    method SpinLeft(p: NtyNode, x: Link, w: NtyNode, ghost c: Context<Link>, ghost t: Tree<Link>)
      requires Focus(c, t, x) && c.InLeft? && c.right.Node? && w == c.right.id && p == c.id
      modifies this`root, this`turns, nodes
      ensures Focus(SiblingSpun(c), t, x)
      ensures turns == old(turns) + 1
    {
      ghost var q := Fill(Tint(WithOther(c, Blackened(c.right)), Red), t);
      SpinSiblingAt(c, t, x, root, null, Links());
      OccupantAt(c, t, x, root, null, Links());
      Paint(w, Black);
      Paint(p, Red);
      RotateLeftAtFocus(p, c.up, q);
      MoveDown(c.up, RotateLeft(q), w, root, null, Links());
      MoveDown(InLeft(w, Black, c.right.right, c.up), Node(t, c.id, Red, c.right.left), c.id, root, null, Links());
      OccupantAt(SiblingSpun(c), t, x, root, null, Links());
    }

    /** Black sibling on the right whose left child is red. */
    method StraightenRight(x: Link, w: NtyNode, ghost c: Context<Link>, ghost t: Tree<Link>)
      requires Focus(c, t, x) && c.InLeft? && c.right.Node? && c.right.left.Node? && w == c.right.id
      modifies this`root, this`turns, nodes
      ensures Focus(Straightened(c), t, x)
      ensures turns == old(turns) + 1
    {
      ghost var s := Sided(c, Blackened(Near(c)), w, Red, Far(c));
      KinAt(c, t, x, root, null, Links());
      OccupantAt(c, t, x, root, null, Links());
      StraightenAt(c, t, x, root, null, Links());
      Paint(w.left, Black);
      Paint(w, Red);
      RotateRightAtFocus(w, Across(c, t), s);
      MoveAcross(Across(c, t), RotateRight(s), s.left.id, root, null, Links());
      OccupantAt(Straightened(c), t, x, root, null, Links());
    }

    /** Black sibling on the right whose right child is red. */
    method LiftLeft(p: NtyNode, x: Link, w: NtyNode, ghost c: Context<Link>, ghost t: Tree<Link>)
      requires Focus(c, t, x) && c.InLeft? && c.right.Node? && c.right.right.Node? && w == c.right.id && p == c.id
      modifies this`root, this`turns, nodes
      ensures Focus(Top, Plug(c.up, Lifted(c, t)), root)
      ensures turns == old(turns) + 1
    {
      KinAt(c, t, x, root, null, Links());
      LiftAt(c, t, x, root, null, Links());
      Paint(w, p.color);
      Paint(p, Black);
      Paint(w.right, Black);
      RotateLeftAtFocus(p, c.up, Fill(Tint(WithOther(c, Sided(c, Near(c), w, c.color, Blackened(Far(c)))), Black), t));
      Zoom(c.up, Lifted(c, t), w, root, null, Links());
    }

    method RestructureRight(p: NtyNode, x: Link, w0: NtyNode, ghost c: Context<Link>, ghost t: Tree<Link>)
      requires Focus(c, t, x) && c.InLeft? && c.right.Node? && w0 == c.right.id && p == c.id
      requires IsRed(c.right.left) || IsRed(c.right.right)
      modifies this`root, this`turns, nodes
      ensures Focus(BlackSiblingPass(c, t).0, BlackSiblingPass(c, t).1, root)
      ensures turns == old(turns) + BlackSiblingPass(c, t).2
    {
      var w := w0;
      ghost var d := c;
      KinAt(c, t, x, root, null, Links());
      if IsBlack(w.right) {
        StraightenRight(x, w, c, t);
        d := Straightened(c);
        KinAt(d, t, x, root, null, Links());
        w := p.right;
      }
      LiftLeft(p, x, w, d, t);
    }

    /** One pass with a black sibling on the right: the new focus and its parent. */
    method BlackRight(p: NtyNode, x: Link, w: NtyNode, ghost c: Context<Link>, ghost t: Tree<Link>)
        returns (x': Link, p': Link)
      requires Focus(c, t, x) && c.InLeft? && c.right.Node? && w == c.right.id && p == c.id
      modifies this`root, this`turns, nodes
      ensures Focus(BlackSiblingPass(c, t).0, BlackSiblingPass(c, t).1, x')
      ensures p' == Above(BlackSiblingPass(c, t).0, null) || BlackSiblingPass(c, t).0.Top?
      ensures turns == old(turns) + BlackSiblingPass(c, t).2
    {
      KinAt(c, t, x, root, null, Links());
      if IsBlack(w.left) && IsBlack(w.right) {
        PaintOther(c, t, x, root, null, Links(), Red);
        Paint(w, Red);
        MoveUp(WithOther(c, c.right.(color := Red)), t, x, root, null, Links());
        OccupantAt(c.up, SiblingReddened(c, t), p, root, null, Links());
        x', p' := p, p.parent;
      } else {
        RestructureRight(p, x, w, c, t);
        x', p' := root, p;
      }
    }

    /** One pass on a left child. */
    method PassLeft(p: NtyNode, x: Link, ghost c: Context<Link>, ghost t: Tree<Link>) returns (x': Link, p': Link)
      requires Focus(c, t, x) && c.InLeft? && c.right.Node? && (IsRed(c.right) ==> c.right.left.Node?) && p == c.id
      modifies this`root, this`turns, nodes
      ensures Focus(DeletePass(c, t).0, DeletePass(c, t).1, x')
      ensures p' == Above(DeletePass(c, t).0, null) || DeletePass(c, t).0.Top?
      ensures turns == old(turns) + DeletePass(c, t).2
    {
      KinAt(c, t, x, root, null, Links());
      var w := p.right;
      ghost var d := c;
      if w.color == Red {
        SpinLeft(p, x, w, c, t);
        d := SiblingSpun(c);
        KinAt(d, t, x, root, null, Links());
        w := p.right;
      }
      x', p' := BlackRight(p, x, w, d, t);
    }

    /** Red sibling on the left. */
    method SpinRight(p: NtyNode, x: Link, w: NtyNode, ghost c: Context<Link>, ghost t: Tree<Link>)
      requires Focus(c, t, x) && c.InRight? && c.left.Node? && w == c.left.id && p == c.id
      modifies this`root, this`turns, nodes
      ensures Focus(SiblingSpun(c), t, x)
      ensures turns == old(turns) + 1
    {
      ghost var q := Fill(Tint(WithOther(c, Blackened(c.left)), Red), t);
      SpinSiblingAt(c, t, x, root, null, Links());
      OccupantAt(c, t, x, root, null, Links());
      Paint(w, Black);
      Paint(p, Red);
      RotateRightAtFocus(p, c.up, q);
      MoveDown(c.up, RotateRight(q), w, root, null, Links());
      MoveDown(InRight(c.left.left, w, Black, c.up), Node(c.left.right, c.id, Red, t), c.id, root, null, Links());
      OccupantAt(SiblingSpun(c), t, x, root, null, Links());
    }

    /** Black sibling on the left whose right child is red. */
    method StraightenLeft(x: Link, w: NtyNode, ghost c: Context<Link>, ghost t: Tree<Link>)
      requires Focus(c, t, x) && c.InRight? && c.left.Node? && c.left.right.Node? && w == c.left.id
      modifies this`root, this`turns, nodes
      ensures Focus(Straightened(c), t, x)
      ensures turns == old(turns) + 1
    {
      ghost var s := Sided(c, Blackened(Near(c)), w, Red, Far(c));
      KinAt(c, t, x, root, null, Links());
      OccupantAt(c, t, x, root, null, Links());
      StraightenAt(c, t, x, root, null, Links());
      Paint(w.right, Black);
      Paint(w, Red);
      RotateLeftAtFocus(w, Across(c, t), s);
      MoveAcross(Across(c, t), RotateLeft(s), s.right.id, root, null, Links());
      OccupantAt(Straightened(c), t, x, root, null, Links());
    }

    /** Black sibling on the left whose left child is red. */
    method LiftRight(p: NtyNode, x: Link, w: NtyNode, ghost c: Context<Link>, ghost t: Tree<Link>)
      requires Focus(c, t, x) && c.InRight? && c.left.Node? && c.left.left.Node? && w == c.left.id && p == c.id
      modifies this`root, this`turns, nodes
      ensures Focus(Top, Plug(c.up, Lifted(c, t)), root)
      ensures turns == old(turns) + 1
    {
      KinAt(c, t, x, root, null, Links());
      LiftAt(c, t, x, root, null, Links());
      Paint(w, p.color);
      Paint(p, Black);
      Paint(w.left, Black);
      RotateRightAtFocus(p, c.up, Fill(Tint(WithOther(c, Sided(c, Near(c), w, c.color, Blackened(Far(c)))), Black), t));
      Zoom(c.up, Lifted(c, t), w, root, null, Links());
    }

    method RestructureLeft(p: NtyNode, x: Link, w0: NtyNode, ghost c: Context<Link>, ghost t: Tree<Link>)
      requires Focus(c, t, x) && c.InRight? && c.left.Node? && w0 == c.left.id && p == c.id
      requires IsRed(c.left.left) || IsRed(c.left.right)
      modifies this`root, this`turns, nodes
      ensures Focus(BlackSiblingPass(c, t).0, BlackSiblingPass(c, t).1, root)
      ensures turns == old(turns) + BlackSiblingPass(c, t).2
    {
      var w := w0;
      ghost var d := c;
      KinAt(c, t, x, root, null, Links());
      if IsBlack(w.left) {
        StraightenLeft(x, w, c, t);
        d := Straightened(c);
        KinAt(d, t, x, root, null, Links());
        w := p.left;
      }
      LiftRight(p, x, w, d, t);
    }

    /** One pass with a black sibling on the left: the new focus and its parent. */
    method BlackLeft(p: NtyNode, x: Link, w: NtyNode, ghost c: Context<Link>, ghost t: Tree<Link>)
        returns (x': Link, p': Link)
      requires Focus(c, t, x) && c.InRight? && c.left.Node? && w == c.left.id && p == c.id
      modifies this`root, this`turns, nodes
      ensures Focus(BlackSiblingPass(c, t).0, BlackSiblingPass(c, t).1, x')
      ensures p' == Above(BlackSiblingPass(c, t).0, null) || BlackSiblingPass(c, t).0.Top?
      ensures turns == old(turns) + BlackSiblingPass(c, t).2
    {
      KinAt(c, t, x, root, null, Links());
      if IsBlack(w.left) && IsBlack(w.right) {
        PaintOther(c, t, x, root, null, Links(), Red);
        Paint(w, Red);
        MoveUp(WithOther(c, c.left.(color := Red)), t, x, root, null, Links());
        OccupantAt(c.up, SiblingReddened(c, t), p, root, null, Links());
        x', p' := p, p.parent;
      } else {
        RestructureLeft(p, x, w, c, t);
        x', p' := root, p;
      }
    }

    /** One pass on a right child. */
    method PassRight(p: NtyNode, x: Link, ghost c: Context<Link>, ghost t: Tree<Link>) returns (x': Link, p': Link)
      requires Focus(c, t, x) && c.InRight? && c.left.Node? && (IsRed(c.left) ==> c.left.right.Node?) && p == c.id
      modifies this`root, this`turns, nodes
      ensures Focus(DeletePass(c, t).0, DeletePass(c, t).1, x')
      ensures p' == Above(DeletePass(c, t).0, null) || DeletePass(c, t).0.Top?
      ensures turns == old(turns) + DeletePass(c, t).2
    {
      KinAt(c, t, x, root, null, Links());
      var w := p.left;
      ghost var d := c;
      if w.color == Red {
        SpinRight(p, x, w, c, t);
        d := SiblingSpun(c);
        KinAt(d, t, x, root, null, Links());
        w := p.left;
      }
      x', p' := BlackLeft(p, x, w, d, t);
    }

    // ---- the insertion loop

    /** Red uncle. */
    method Recolor(z: NtyNode, y: NtyNode, ghost c: Context<Link>, ghost t: Tree<Link>) returns (z': NtyNode)
      requires Focus(c, t, z) && t.Node? && !c.Top? && !c.up.Top? && Other(c.up).Node? && y == Other(c.up).id
      modifies nodes`color
      ensures Focus(c.up.up, Recolored(c, t), z')
    {
      ghost var m := Links();
      RecolorAt(c, t, z, root, null, m);
      FamilyAt(c, t, z, root, null, m);
      z' := z.parent.parent;
      Paint(z.parent, Black);
      Paint(y, Black);
      Paint(z', Red);
    }

    /** Black uncle, outer left grandchild. */
    method InsertSpinRight(z: NtyNode, ghost c: Context<Link>, ghost t: Tree<Link>)
      requires t.Node? && c.InLeft? && c.up.InLeft? && Focus(c, t, z)
      modifies this`root, this`turns, nodes
      ensures Focus(SpinContext(c), t, z)
      ensures turns == old(turns) + 1
    {
      ghost var m, g := Links(), Fill(Tint(c.up, Red), Fill(Tint(c, Black), t));
      SwapColorsAt(c, t, z, root, null, m);
      FamilyAt(c, t, z, root, null, m);
      var parent, gparent := z.parent, z.parent.parent;
      Paint(parent, Black);
      Paint(gparent, Red);
      RotateRightAtFocus(gparent, c.up.up, g);
      MoveDown(c.up.up, RotateRight(g), c.id, root, null, Links());
    }

    /** Black uncle, outer right grandchild. */
    method InsertSpinLeft(z: NtyNode, ghost c: Context<Link>, ghost t: Tree<Link>)
      requires t.Node? && c.InRight? && c.up.InRight? && Focus(c, t, z)
      modifies this`root, this`turns, nodes
      ensures Focus(SpinContext(c), t, z)
      ensures turns == old(turns) + 1
    {
      ghost var m, g := Links(), Fill(Tint(c.up, Red), Fill(Tint(c, Black), t));
      SwapColorsAt(c, t, z, root, null, m);
      FamilyAt(c, t, z, root, null, m);
      var parent, gparent := z.parent, z.parent.parent;
      Paint(parent, Black);
      Paint(gparent, Red);
      RotateLeftAtFocus(gparent, c.up.up, g);
      MoveDown(c.up.up, RotateLeft(g), c.id, root, null, Links());
    }

    method TurnLeft(z: NtyNode, ghost c: Context<Link>, ghost t: Tree<Link>) returns (z': NtyNode)
      requires t.Node? && c.InRight? && Focus(c, t, z)
      modifies this`root, this`turns, nodes
      ensures Focus(TurnContext(c, t), TurnTree(c, t), z')
      ensures turns == old(turns) + 1
    {
      ParentAt(c, t, z, root, null, Links());
      MoveUp(c, t, z, root, null, Links());
      z' := z.parent;
      RotateLeftAtFocus(z', c.up, Fill(c, t));
      MoveDown(c.up, RotateLeft(Fill(c, t)), t.id, root, null, Links());
    }

    method TurnRight(z: NtyNode, ghost c: Context<Link>, ghost t: Tree<Link>) returns (z': NtyNode)
      requires t.Node? && c.InLeft? && Focus(c, t, z)
      modifies this`root, this`turns, nodes
      ensures Focus(TurnContext(c, t), TurnTree(c, t), z')
      ensures turns == old(turns) + 1
    {
      ParentAt(c, t, z, root, null, Links());
      MoveUp(c, t, z, root, null, Links());
      z' := z.parent;
      RotateRightAtFocus(z', c.up, Fill(c, t));
      MoveDown(c.up, RotateRight(Fill(c, t)), t.id, root, null, Links());
    }

    /** One pass where the parent is a left child. */
    method InsertLeft(z: NtyNode, ghost c: Context<Link>, ghost t: Tree<Link>) returns (z': NtyNode)
      requires t.Node? && !c.Top? && c.up.InLeft? && Focus(c, t, z)
      modifies this`root, this`turns, nodes
      ensures Focus(InsertPass(c, t).0, InsertPass(c, t).1, z')
      ensures turns == old(turns) + InsertPass(c, t).2
    {
      FamilyAt(c, t, z, root, null, Links());
      var tmp := z.parent.parent.right;
      if !IsBlack(tmp) {
        z' := Recolor(z, tmp, c, t);
      } else if z.parent.right == z {
        z' := TurnLeft(z, c, t);
        InsertSpinRight(z', TurnContext(c, t), TurnTree(c, t));
      } else {
        z' := z;
        InsertSpinRight(z', c, t);
      }
    }

    /** One pass where the parent is a right child. */
    method InsertRight(z: NtyNode, ghost c: Context<Link>, ghost t: Tree<Link>) returns (z': NtyNode)
      requires t.Node? && !c.Top? && c.up.InRight? && Focus(c, t, z)
      modifies this`root, this`turns, nodes
      ensures Focus(InsertPass(c, t).0, InsertPass(c, t).1, z')
      ensures turns == old(turns) + InsertPass(c, t).2
    {
      FamilyAt(c, t, z, root, null, Links());
      var tmp := z.parent.parent.left;
      if !IsBlack(tmp) {
        z' := Recolor(z, tmp, c, t);
      } else if z.parent.left == z {
        z' := TurnRight(z, c, t);
        InsertSpinLeft(z', TurnContext(c, t), TurnTree(c, t));
      } else {
        z' := z;
        InsertSpinLeft(z', c, t);
      }
    }

    method InsertStep(z: NtyNode, ghost c: Context<Link>, ghost t: Tree<Link>, ghost line: seq<Link>, ghost k: nat)
      returns (z': NtyNode, ghost c': Context<Link>, ghost t': Tree<Link>, ghost k': nat)
      requires Focus(c, t, z) && InsertLoop(c, t, line, k) && !c.Top? && c.color.Red?
      modifies this`root, this`turns, nodes
      ensures Focus(c', t', z') && Hangs(c', z', root, null, Links())
      ensures InsertLoop(c', t', line, k') && InsertRank(c') < InsertRank(c)
      ensures turns - old(turns) == k' - k
    {
      InsertPassSound(c, t, line, k);
      FamilyAt(c, t, z, root, null, Links());
      if z.parent == z.parent.parent.left {
        z' := InsertLeft(z, c, t);
      } else {
        z' := InsertRight(z, c, t);
      }
      c', t', k' := InsertPass(c, t).0, InsertPass(c, t).1, k + InsertPass(c, t).2;
      HangsAt(c', t', z', root, null, Links());
    }

    method InsertFinish(z: NtyNode, ghost c: Context<Link>, ghost t: Tree<Link>) returns (ghost after: Tree<Link>)
      requires Focus(c, t, z) && Hot(c, t) && (c.Top? || c.color.Black?)
      modifies nodes`color
      ensures Repaired(after) && Order(after) == Line(c, t)
    {
      HotDone(c, t);
      Zoom(c, t, z, root, null, Links());
      PlugNode(c, t);
      OccupantAt(Top, Plug(c, t), root, root, null, Links());
      after := Blackened(Plug(c, t));
      PaintAt(Top, Plug(c, t), root, root, null, Links(), Black);
      Paint(root, Black);
    }

    /** `RB_INSERT_COLOR` */
    method InsertColor(z0: NtyNode, ghost c0: Context<Link>, ghost t0: Tree<Link>)
      returns (ghost after: Tree<Link>)
      requires Focus(c0, t0, z0) && Hot(c0, t0)
      modifies this`root, this`turns, nodes
      ensures Repaired(after) && Order(after) == Line(c0, t0) && old(turns) <= turns <= old(turns) + 2
    {
      var z := z0;
      ghost var c, t := c0, t0;
      ghost var rotations := 0;
      HangsAt(c, t, z, root, null, Links());
      while z.parent != null && z.parent.color == Red
        invariant Focus(c, t, z) && Hangs(c, z, root, null, Links())
        invariant InsertLoop(c, t, Line(c0, t0), rotations) && turns == old(turns) + rotations
        decreases InsertRank(c)
      {
        z, c, t, rotations := InsertStep(z, c, t, Line(c0, t0), rotations);
      }
      after := InsertFinish(z, c, t);
    }

    // ---- insertion

    method Attach(z: NtyNode, parent: Link, ghost c: Context<Link>)
      requires parent == Above(c, null) && z !in nodes && (!c.Top? ==> parent != null && parent in nodes)
      requires !c.Top? ==> (c.InLeft? <==> cmp(z.key, parent.key) < 0)
      modifies this`root, this`nodes, nodes, z
      ensures nodes == old(nodes) + {z} && Attached(c, z, old(root), root, null, old(Links()), Links())
    {
      z.parent := parent;
      z.left, z.right := null, null;
      z.color := Red;
      if parent != null {
        if cmp(z.key, parent.key) < 0 {
          parent.left := z;
        } else {
          parent.right := z;
        }
      } else {
        root := z;
      }
      nodes := nodes + {z};
    }

    /** The descent has come to `x`, and the key belongs below. */
    ghost predicate Probing(c: Context<Link>, t: Tree<Link>, x: Link, key: int)
      reads this`root, this`nodes, this`shape, nodes
    {
      Focus(c, t, x) && Heads(t, x, null, Links()) && Plug(c, t) == shape && Gap(cmp, c, key)
    }

    lemma ProbeStep(c: Context<Link>, t: Tree<Link>, x: NtyNode, key: int)
      requires Ordering(cmp) && Ascending(cmp, Sequence()) && Probing(c, t, x, key)
      ensures t.Node? && t.id == x && x in nodes
      ensures cmp(key, x.key) < 0 ==> Probing(InLeft(x, t.color, t.right, c), t.left, x.left, key)
      ensures cmp(key, x.key) > 0 ==> Probing(InRight(t.left, x, t.color, c), t.right, x.right, key)
    {
      PlugLine(c, t);
      GapStep(cmp, c, t, x, key);
      MoveDown(c, t, x, root, null, Links());
      OccupantAt(InLeft(x, t.color, t.right, c), t.left, x.left, root, null, Links());
      OccupantAt(InRight(t.left, x, t.color, c), t.right, x.right, root, null, Links());
    }

    /** The descent of `RB_INSERT`: the node with the key, or the gap where it belongs. */
    method Probe(key: int) returns (tmp: Link, parent: Link, ghost c: Context<Link>, ghost t: Tree<Link>)
      requires Ordering(cmp) && Valid() && Ascending(cmp, Sequence())
      ensures Links() == old(Links()) && Probing(c, t, tmp, key)
      ensures if tmp == null then t.Leaf? && parent == Above(c, null)
        else t.Node? && t.id == tmp && cmp(key, tmp.key) == 0
      ensures tmp == null && !c.Top? ==>
        parent != null && parent in nodes && (c.InLeft? <==> cmp(key, parent.key) < 0)
    {
      tmp, parent, c, t := root, null, Top, shape;
      OccupantAt(Top, shape, root, root, null, Links());
      hide Ordering, Ascending, Gap, Focus;
      while tmp != null
        invariant Probing(c, t, tmp, key) && parent == Above(c, null)
        invariant !c.Top? ==> parent != null && parent in nodes && (c.InLeft? <==> cmp(key, parent.key) < 0)
        decreases t
      {
        parent := tmp;
        ProbeStep(c, t, tmp, key);
        if cmp(key, tmp.key) < 0 {
          c, t, tmp := InLeft(tmp, t.color, t.right, c), t.left, tmp.left;
        } else if cmp(key, tmp.key) > 0 {
          c, t, tmp := InRight(t.left, tmp, t.color, c), t.right, tmp.right;
        } else {
          return;
        }
      }
    }

    /** `RB_INSERT`: null, or the node that already has the key. */
    method Insert(z: NtyNode) returns (r: Link, ghost a: seq<Link>, ghost b: seq<Link>)
      requires Ordering(cmp) && Valid() && Ascending(cmp, Sequence()) && z !in nodes
      modifies this`root, this`turns, this`nodes, this`shape, nodes, z
      ensures Valid() && Ascending(cmp, Sequence()) && old(turns) <= turns <= old(turns) + 2 && old(Sequence()) == a + b
      ensures if r == null then Sequence() == a + [z] + b && nodes == old(nodes) + {z}
        else Sequence() == a + b && nodes == old(nodes) && r in nodes && cmp(z.key, r.key) == 0
    {
      var tmp, parent;
      ghost var c, t;
      tmp, parent, c, t := Probe(z.key);
      if tmp != null {
        OccupantAt(c, t, tmp, root, null, Links());
        a, b := Sequence(), [];
        return tmp, a, b;
      }
      a, b := Before(c), After(c);
      HotLeaf(c, z);
      AscendingInsert(cmp, a, z, b);
      Hang(z, parent, c);
      r := null;
    }

    method Hang(z: NtyNode, parent: Link, ghost c: Context<Link>)
      requires Focus(c, Leaf, null) && z !in nodes && Hot(c, Node(Leaf, z, Red, Leaf)) && parent == Above(c, null)
      requires !c.Top? ==> parent != null && parent in nodes && (c.InLeft? <==> cmp(z.key, parent.key) < 0)
      modifies this`root, this`turns, this`nodes, this`shape, nodes, z
      ensures Valid() && Sequence() == Line(c, Node(Leaf, z, Red, Leaf))
      ensures nodes == old(nodes) + {z} && old(turns) <= turns <= old(turns) + 2
    {
      ghost var m := Links();
      Attach(z, parent, c);
      AttachAt(c, z, old(root), root, null, m, Links());
      shape := InsertColor(z, c, Node(Leaf, z, Red, Leaf));
    }

    /** `x` is in focus and `p` is its parent. */
    ghost predicate Hung(c: Context<Link>, t: Tree<Link>, x: Link, p: Link)
      reads this`root, this`nodes, nodes
    {
      && Focus(c, t, x) && Heads(t, x, null, Links()) && (x == root <==> c.Top?)
      && (!c.Top? ==> p == c.id)
    }

    method RemoveStep(p: NtyNode, x: Link, ghost c: Context<Link>, ghost t: Tree<Link>, ghost line: seq<Link>,
        ghost k: nat)
      returns (p': Link, x': Link, ghost c': Context<Link>, ghost t': Tree<Link>, ghost k': nat)
      requires Hung(c, t, x, p) && DeleteLoop(c, t, line, k) && !c.Top? && !IsRed(t)
      modifies this`root, this`turns, nodes
      ensures Hung(c', t', x', p') && DeleteLoop(c', t', line, k') && DeleteRank(c', t') < DeleteRank(c, t)
      ensures turns - old(turns) == k' - k
    {
      DeletePassSound(c, t, line, k);
      KinAt(c, t, x, root, null, Links());
      if p.left == x {
        x', p' := PassLeft(p, x, c, t);
      } else {
        x', p' := PassRight(p, x, c, t);
      }
      c', t', k' := DeletePass(c, t).0, DeletePass(c, t).1, k + DeletePass(c, t).2;
      OccupantAt(c', t', x', root, null, Links());
    }

    method RemoveFinish(x: Link, ghost c: Context<Link>, ghost t: Tree<Link>) returns (ghost after: Tree<Link>)
      requires Focus(c, t, x) && Short(c, t) && (c.Top? || IsRed(t))
      modifies nodes`color
      ensures Repaired(after) && Order(after) == Line(c, t)
    {
      ShortDone(c, t);
      OccupantAt(c, t, x, root, null, Links());
      if x != null {
        PaintAt(c, t, x, root, null, Links(), Black);
        Paint(x, Black);
      }
      after := Plug(c, Blackened(t));
      Zoom(c, Blackened(t), x, root, null, Links());
    }

    /** `RB_REMOVE_COLOR` */
    method RemoveColor(p0: Link, x0: Link, ghost c0: Context<Link>, ghost t0: Tree<Link>)
      returns (ghost after: Tree<Link>)
      requires Hung(c0, t0, x0, p0) && Short(c0, t0)
      modifies this`root, this`turns, nodes
      ensures Repaired(after) && Order(after) == Line(c0, t0) && old(turns) <= turns <= old(turns) + 3
    {
      var p, x := p0, x0;
      ghost var c, t := c0, t0;
      ghost var rotations := 0;
      while IsBlack(x) && x != root
        invariant Hung(c, t, x, p) && DeleteLoop(c, t, Line(c0, t0), rotations)
        invariant turns == old(turns) + rotations
        decreases DeleteRank(c, t)
      {
        ParentAt(c, t, x, root, null, Links());
        p, x, c, t, rotations := RemoveStep(p, x, c, t, Line(c0, t0), rotations);
      }
      after := RemoveFinish(x, c, t);
    }

    // ---- removal

    /** Unlink `y` in favour of its only child, if any. */
    method Detach(y: NtyNode, child: Link, ghost c: Context<Link>)
      requires Hangs(c, y, root, null, Links())
      requires child != null ==> child in nodes && child != y && child != Above(c, null)
      modifies this`root, this`nodes, nodes
      ensures nodes == old(nodes) - {y} && y.color == old(y.color) && y.parent == old(y.parent)
      ensures Spliced(c, y, child, old(root), root, null, old(Links()), Links())
    {
      var parent := y.parent;
      if child != null {
        child.parent := parent;
      }
      if parent != null {
        if parent.left == y {
          parent.left := child;
        } else {
          parent.right := child;
        }
      } else {
        root := child;
      }
      nodes := nodes - {y};
    }

    /** Put `y`, which is not in the tree, in the place of `z`. */
    method Substitute(z: NtyNode, y: NtyNode, ghost c: Context<Link>)
      requires Hangs(c, z, root, null, Links()) && y !in nodes
      requires z.left != null ==> z.left in nodes && z.left != z && z.left != Above(c, null) && z.left != z.right
      requires z.right != null ==> z.right in nodes && z.right != z && z.right != Above(c, null)
      modifies this`root, this`nodes, nodes, y
      ensures nodes == old(nodes) - {z} + {y}
      ensures Substituted(c, z, y, old(root), root, null, old(Links()), Links())
    {
      y.left, y.right, y.parent, y.color := z.left, z.right, z.parent, z.color;
      if z.parent != null {
        if z.parent.left == z {
          z.parent.left := y;
        } else {
          z.parent.right := y;
        }
      } else {
        root := y;
      }
      if z.left != null {
        z.left.parent := y;
      }
      if z.right != null {
        z.right.parent := y;
      }
      nodes := nodes - {z} + {y};
    }

    /** Repair after a node of colour `col` above `x` has been unlinked, and adopt the resulting shape. */
    method Rebalance(x: Link, p: Link, col: Color, ghost c: Context<Link>, ghost t: Tree<Link>)
      requires t.Node? && (t.left.Leaf? || t.right.Leaf?) && Hung(c, OnlyChild(t), x, p) && col == t.color
      requires Balanced(Plug(c, t)) && !IsRed(Plug(c, t))
      modifies this`root, this`turns, this`shape, nodes
      ensures Valid() && Sequence() == Line(c, OnlyChild(t)) && old(turns) <= turns <= old(turns) + 3
    {
      SpliceBalance(c, t);
      SpliceLine(c, t);
      if col == Black {
        shape := RemoveColor(p, x, c, OnlyChild(t));
      } else {
        Zoom(c, OnlyChild(t), x, root, null, Links());
        shape := Plug(c, OnlyChild(t));
      }
    }

    method Unlink(y: NtyNode, child: Link, ghost c: Context<Link>, ghost t: Tree<Link>)
      requires Focus(c, t, y) && t.Node? && (t.left.Leaf? || t.right.Leaf?)
      requires child == if y.left != null then y.left else y.right
      modifies this`root, this`nodes, nodes
      ensures nodes == old(nodes) - {y} && Hung(c, OnlyChild(t), child, Above(c, null)) && y.color == t.color
      ensures y.parent == Above(c, null) && child == Head(OnlyChild(t), null)
    {
      ghost var m := Links();
      SpliceReady(c, t, y, root, null, m);
      Detach(y, child, c);
      SpliceAt(c, t, y, child, old(root), root, null, m, Links());
      OccupantAt(c, OnlyChild(t), child, root, null, Links());
    }

    /** The descent to the successor: the leftmost node below `x`. */
    method Leftmost(x: NtyNode, ghost c: Context<Link>, ghost t: Tree<Link>)
      returns (y: NtyNode, ghost d: Context<Link>, ghost u: Tree<Link>)
      requires Focus(c, t, x) && t.Node?
      ensures Links() == old(Links()) && Leftward(d) && Plug(d, u) == t && Focus(Over(d, c), u, y)
      ensures u.Node? && u.left.Leaf? && y == u.id && y in nodes && y.left == null
    {
      y, d, u := x, Top, t;
      OccupantAt(c, t, x, root, null, Links());
      while y.left != null
        invariant Leftward(d) && Plug(d, u) == t && Focus(Over(d, c), u, y) && u.Node? && Heads(u, y, null, Links())
        decreases u
      {
        MoveDown(Over(d, c), u, y, root, null, Links());
        OccupantAt(InLeft(y, u.color, u.right, Over(d, c)), u.left, y.left, root, null, Links());
        d, u, y := InLeft(y, u.color, u.right, d), u.left, y.left;
      }
      MoveDown(Over(d, c), u, y, root, null, Links());
      OccupantAt(InLeft(y, u.color, u.right, Over(d, c)), u.left, y.left, root, null, Links());
    }

    /** Removal of a node with at most one child. */
    method RemoveOuter(z: NtyNode, ghost c: Context<Link>, ghost t: Tree<Link>)
      returns (ghost a: seq<Link>, ghost b: seq<Link>)
      requires Valid() && Focus(c, t, z) && Plug(c, t) == shape && t.Node? && (t.left.Leaf? || t.right.Leaf?)
      modifies this`root, this`turns, this`nodes, this`shape, nodes
      ensures Valid() && nodes == old(nodes) - {z} && old(turns) <= turns <= old(turns) + 3
      ensures old(Sequence()) == a + [z] + b && Sequence() == a + b
    {
      SpliceLine(c, t);
      a, b := Before(c) + Order(t.left), Order(t.right) + After(c);
      KidsAt(c, t, z, root, null, Links());
      var child := if z.left == null then z.right else z.left;
      Unlink(z, child, c, t);
      Rebalance(child, z.parent, z.color, c, t);
    }

    /** Put `y`, just unlinked below `z`, in the place of `z`; `s` is what is left of the place of `y`. */
    method Promote(z: NtyNode, y: NtyNode, ghost d: Context<Link>, ghost l: Tree<Link>, ghost col: Color,
                   ghost c: Context<Link>, ghost s: Tree<Link>)
      requires Focus(Over(d, InRight(l, z, col, c)), s, Head(s, null)) && y !in nodes
      modifies this`root, this`nodes, nodes, y
      ensures nodes == old(nodes) - {z} + {y} && Focus(Over(d, InRight(l, y, col, c)), s, Head(s, null))
    {
      ghost var m, t := Links(), Node(l, z, col, Plug(d, s));
      Ascend(d, l, z, col, c, s, root, null, m);
      HangsAt(c, t, z, root, null, m);
      KidsAt(c, t, z, root, null, m);
      Substitute(z, y, c);
      SubstituteAt(c, t, z, y, old(root), root, null, m, Links());
      Descend(d, l, y, col, c, s, root, null, Links());
    }

    /** The successor leaves its place and takes that of `z`; what is left of its place, and its parent. */
    method Relink(z: NtyNode, y: NtyNode, ghost d: Context<Link>, ghost l: Tree<Link>, ghost col: Color,
                  ghost c: Context<Link>, ghost u: Tree<Link>) returns (child: Link, parent: Link, color: Color)
      requires Focus(Over(d, InRight(l, z, col, c)), u, y) && u.Node? && u.left.Leaf? && Leftward(d) && z != y
      requires y in nodes && y.left == null
      modifies this`root, this`nodes, nodes
      ensures nodes == old(nodes) - {z} && color == u.color
      ensures Hung(Over(d, InRight(l, y, col, c)), OnlyChild(u), child, parent)
    {
      ghost var e, e' := Over(d, InRight(l, z, col, c)), Over(d, InRight(l, y, col, c));
      child := y.right;
      PathAbove(d, l, z, col, c);
      PathAbove(d, l, y, col, c);
      Unlink(y, child, e, u);
      color := y.color;
      parent := y.parent;
      if parent == z {
        parent := y;
      }
      Promote(z, y, d, l, col, c, OnlyChild(u));
      OccupantAt(e', OnlyChild(u), child, root, null, Links());
    }

    lemma PathAbove(d: Context<Link>, l: Tree<Link>, z: Link, col: Color, c: Context<Link>)
      ensures Above(Over(d, InRight(l, z, col, c)), null) == if d.Top? then z else d.id
    {
    }

    /** Removal of a node with two children. */
    method RemoveInner(z: NtyNode, ghost c: Context<Link>, ghost t: Tree<Link>)
      returns (ghost a: seq<Link>, ghost b: seq<Link>)
      requires Valid() && Focus(c, t, z) && Plug(c, t) == shape && t.Node? && t.right.Node?
      modifies this`root, this`turns, this`nodes, this`shape, nodes
      ensures Valid() && nodes == old(nodes) - {z} && old(turns) <= turns <= old(turns) + 3
      ensures old(Sequence()) == a + [z] + b && Sequence() == a + b
    {
      KidsAt(c, t, z, root, null, Links());
      MoveDown(c, t, z, root, null, Links());
      hide Focus;
      var y;
      ghost var d, u;
      y, d, u := Leftmost(z.right, InRight(t.left, z, t.color, c), t.right);
      a, b := Before(c) + Order(t.left), [y] + Order(u.right) + (Behind(d) + After(c));
      Outlook(z, y, c, t, d, u);
      var child, parent, color := Relink(z, y, d, t.left, t.color, c, u);
      Rebalance(child, parent, color, Over(d, InRight(t.left, y, t.color, c)), u);
    }

    /** What the relinking will do to the balance and the order. */
    lemma Outlook(z: NtyNode, y: NtyNode, c: Context<Link>, t: Tree<Link>, d: Context<Link>, u: Tree<Link>)
      requires Valid() && Focus(c, t, z) && Plug(c, t) == shape && t.Node? && t.right.Node?
      requires Leftward(d) && Plug(d, u) == t.right && u.Node? && u.left.Leaf? && y == u.id
      ensures z != y
      ensures var e' := Over(d, InRight(t.left, y, t.color, c)); Balanced(Plug(e', u)) && !IsRed(Plug(e', u))
      ensures var a, b := Before(c) + Order(t.left), [y] + Order(u.right) + (Behind(d) + After(c));
        Sequence() == a + [z] + b && Line(Over(d, InRight(t.left, y, t.color, c)), OnlyChild(u)) == a + b
    {
      var f := InRight(t.left, z, t.color, c);
      OverPlug(d, f, u);
      RenameBalanced(d, t.left, z, y, t.color, c, u);
      PlugLine(Over(d, f), u);
      RenameLine(d, t.left, z, t.color, c, u);
      PlugIds(d, u);
    }

    lemma Locate(z: NtyNode) returns (c: Context<Link>, t: Tree<Link>)
      requires Valid() && z in nodes
      ensures Focus(c, t, z) && Plug(c, t) == shape && t.Node? && t.id == z
    {
      assert z in Links().Keys;
      c, t := Place(Top, shape, z);
      FocusOn(c, t, root, null, Links());
    }

    /** `RB_REMOVE`: exactly the given node leaves, and the others keep their order. */
    method Remove(z: NtyNode) returns (ghost a: seq<Link>, ghost b: seq<Link>)
      requires Valid() && z in nodes
      modifies this`root, this`turns, this`nodes, this`shape, nodes
      ensures Valid() && nodes == old(nodes) - {z} && old(turns) <= turns <= old(turns) + 3
      ensures old(Sequence()) == a + [z] + b && Sequence() == a + b
      ensures Ascending(cmp, old(Sequence())) ==> Ascending(cmp, Sequence())
    {
      ghost var c, t := Locate(z);
      KidsAt(c, t, z, root, null, Links());
      if z.left == null || z.right == null {
        a, b := RemoveOuter(z, c, t);
      } else {
        a, b := RemoveInner(z, c, t);
      }
      if Ascending(cmp, a + [z] + b) {
        AscendingDrop(cmp, a, z, b);
      }
    }

    // ---- walking

    /** The climb of `RB_NEXT`: the first ancestor entered from the left. */
    method Climb(x0: NtyNode, ghost c0: Context<Link>, ghost t0: Tree<Link>) returns (y: Link)
      requires Focus(c0, t0, x0) && t0.Node?
      ensures y == if After(c0) == [] then null else After(c0)[0]
    {
      var x := x0;
      ghost var c, t := c0, t0;
      HangsAt(c, t, x, root, null, Links());
      while x.parent != null && x == x.parent.right
        invariant Focus(c, t, x) && t.Node? && Hangs(c, x, root, null, Links()) && After(c) == After(c0)
        decreases c
      {
        MoveUp(c, t, x, root, null, Links());
        x, t := x.parent, Fill(c, t);
        c := c.up;
        HangsAt(c, t, x, root, null, Links());
      }
      y := x.parent;
    }

    /** The node behind `x`, given its place. */
    method Step(x: NtyNode, ghost c: Context<Link>, ghost t: Tree<Link>) returns (y: Link)
      requires Focus(c, t, x) && t.Node?
      ensures Links() == old(Links())
      ensures var rest := Order(t.right) + After(c); y == if rest == [] then null else rest[0]
    {
      KidsAt(c, t, x, root, null, Links());
      if x.right != null {
        ghost var d, u;
        MoveDown(c, t, x, root, null, Links());
        y, d, u := Leftmost(x.right, InRight(t.left, x, t.color, c), t.right);
        LeftwardFirst(d, u);
      } else {
        y := Climb(x, c, t);
      }
    }

    lemma PlaceInSequence(c: Context<Link>, t: Tree<Link>, x: NtyNode, i: nat)
      requires Valid() && Plug(c, t) == shape && t.Node? && t.id == x && i < |Sequence()| && Sequence()[i] == x
      ensures var rest := Order(t.right) + After(c);
        Following(Sequence(), i, null) == if rest == [] then null else rest[0]
    {
      PlugLine(c, t);
      OrderDistinct(shape, root, null, null, Links());
      var a, b := Before(c) + Order(t.left), Order(t.right) + After(c);
      Regroup(Before(c), Order(t.left), x, Order(t.right), After(c));
      FollowingSplit(a, x, b, i, null);
    }

    /** `RB_NEXT` */
    method Next(x: NtyNode, ghost i: nat) returns (y: Link)
      requires Valid() && x in nodes && i < |Sequence()| && Sequence()[i] == x
      ensures Links() == old(Links()) && y == Following(Sequence(), i, null)
    {
      ghost var c, t := Locate(x);
      PlaceInSequence(c, t, x, i);
      y := Step(x, c, t);
    }

    /** `RB_MIN`: `RB_MINMAX` to the left. */
    method Min() returns (parent: Link)
      requires Valid()
      ensures Links() == old(Links()) && parent == if Sequence() == [] then null else Sequence()[0]
    {
      parent := null;
      var tmp := root;
      ghost var d, u := Top, shape;
      OccupantAt(Top, shape, root, root, null, Links());
      while tmp != null
        invariant Focus(d, u, tmp) && Heads(u, tmp, null, Links()) && Leftward(d) && Plug(d, u) == shape
        invariant parent == Above(d, null)
        decreases u
      {
        parent := tmp;
        MoveDown(d, u, tmp, root, null, Links());
        OccupantAt(InLeft(tmp, u.color, u.right, d), u.left, tmp.left, root, null, Links());
        d, u, tmp := InLeft(tmp, u.color, u.right, d), u.left, tmp.left;
      }
      PlugLine(d, u);
      LeftwardBefore(d);
    }

    lemma SequenceIn()
      requires Valid()
      ensures forall i :: 0 <= i < |Sequence()| ==> Sequence()[i] != null && Sequence()[i] in nodes
    {
      forall i | 0 <= i < |Sequence()| ensures Sequence()[i] != null && Sequence()[i] in nodes {
        OrderHas(shape, Sequence()[i]);
        assert Sequence()[i] in Links().Keys;
      }
    }

    /** `RB_FOREACH`: walking `RB_NEXT` from the minimum visits the whole sequence, in order. */
    method Walk() returns (visited: seq<Link>)
      requires Valid()
      ensures visited == Sequence()
    {
      visited := [];
      SequenceIn();
      var x := Min();
      while x != null
        invariant Links() == old(Links()) && |visited| <= |Sequence()| && visited == Sequence()[..|visited|]
        invariant x == if |visited| < |Sequence()| then Sequence()[|visited|] else null
        decreases |Sequence()| - |visited|
      {
        ghost var i := |visited|;
        visited := visited + [x];
        x := Next(x, i);
      }
    }
  }
}
