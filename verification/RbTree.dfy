/** The red-black engine: node objects with parent links and a shared sentinel. */
module RbTree {
  import opened Strings
  import opened Pairs
  import opened RbShape
  import opened RbLayout
  import opened RbContents
  import Store

  class RbNode {
    var color: Color
    var left: RbNode
    var right: RbNode
    var parent: RbNode
    var key: Str
    var value: Str

    /** A fresh node; its links are meaningless until it is inserted. */
    constructor (key: Str, value: Str)
      ensures this.key == key && this.value == value && color == Black
    {
      color, left, right, parent := Black, this, this, this;
      this.key, this.value := key, value;
    }
  }

  class RbTree {
    var root: RbNode
    const nil: RbNode
    ghost var nodes: set<RbNode>
    ghost var shape: Tree<RbNode>
    /** How many rotations have been made; only the two rotations change it. */
    ghost var turns: nat

    /** Everything but the order of the keys: linked both ways, balanced, black at the root and at the sentinel. */
    ghost predicate Repaired(after: Tree<RbNode>)
      reads this`root, this`nodes, nodes`left, nodes`right, nodes`parent, nodes`color, nil`color
    {
      Focus(Top, after, root) && nil.color.Black? && Balanced(after) && !IsRed(after)
    }

    ghost predicate Valid()
      reads this`root, this`nodes, this`shape, nil`color, nodes
    {
      Repaired(shape) && Sorted(Contents())
    }

    /** The bindings in key order. */
    ghost function Contents(): seq<Pair>
      reads this`nodes, this`shape, nodes`key, nodes`value
    {
      Listed(Order(shape), Keyed())
    }

    ghost function View(): map<Str, Str>
      reads this`nodes, this`shape, nodes`key, nodes`value
    {
      ToMap(Contents())
    }

    /** The keys and values of the nodes in the tree. */
    ghost function Keyed(): Data<RbNode>
      reads this`nodes, nodes`key, nodes`value
    {
      map n | n in nodes :: (n.key, n.value)
    }

    constructor ()
      ensures Valid() && fresh(nil) && nodes == {} && View() == map[]
    {
      nil := new RbNode([], []);
      root := nil;
      nodes, shape, turns := {}, Leaf, 0;
    }

    /** The link fields of the nodes in the tree. */
    ghost function Links(): Mem<RbNode>
      reads this`nodes, nodes`left, nodes`right, nodes`parent, nodes`color
    {
      map n | n in nodes :: Cell(n.left, n.right, n.parent, n.color)
    }

    ghost predicate Focus(c: Context<RbNode>, t: Tree<RbNode>, x: RbNode)
      reads this`root, this`nodes, nodes`left, nodes`right, nodes`parent, nodes`color
    {
      At(c, t, x, root, nil, Links())
    }

    // ---- rotations

    method LeftRotate(x: RbNode, ghost c: Context<RbNode>)
      requires Hangs(c, x, root, nil, Links()) && x.right in nodes
      requires Apart(c, x, x.right, x.right.left, nil, Links())
      modifies this`root, this`turns, nodes`left, nodes`right, nodes`parent
      ensures RotatedLeft(c, x, old(x.right), old(root), root, nil, old(Links()), Links())
      ensures turns == old(turns) + 1
    {
      var y := x.right;
      x.right := y.left;
      if y.left != nil {
        y.left.parent := x;
      }
      y.parent := x.parent;
      if x.parent == nil {
        root := y;
      } else if x == x.parent.left {
        x.parent.left := y;
      } else {
        x.parent.right := y;
      }
      y.left := x;
      x.parent := y;
      turns := turns + 1;
    }

    method RightRotate(y: RbNode, ghost c: Context<RbNode>)
      requires Hangs(c, y, root, nil, Links()) && y.left in nodes
      requires Apart(c, y, y.left, y.left.right, nil, Links())
      modifies this`root, this`turns, nodes`left, nodes`right, nodes`parent
      ensures RotatedRight(c, y, old(y.left), old(root), root, nil, old(Links()), Links())
      ensures turns == old(turns) + 1
    {
      var x := y.left;
      y.left := x.right;
      if x.right != nil {
        x.right.parent := y;
      }
      x.parent := y.parent;
      if y.parent == nil {
        root := x;
      } else if y == y.parent.right {
        y.parent.right := x;
      } else {
        y.parent.left := x;
      }
      x.right := y;
      y.parent := x;
      turns := turns + 1;
    }

    /** Rotations act on the shape as expected. */
    method RotateLeftAtFocus(x: RbNode, ghost c: Context<RbNode>, ghost t: Tree<RbNode>)
      requires Focus(c, t, x) && t.Node? && t.right.Node?
      modifies this`root, this`turns, nodes`left, nodes`right, nodes`parent
      ensures Focus(c, RotateLeft(t), t.right.id)
      ensures turns == old(turns) + 1
    {
      ghost var m := Links();
      HangsAt(c, t, x, root, nil, m);
      ApartLeft(c, t, x, root, nil, m);
      LeftRotate(x, c);
      RotateLeftAt(c, t, x, t.right.id, old(root), root, nil, m, Links());
    }

    method RotateRightAtFocus(y: RbNode, ghost c: Context<RbNode>, ghost t: Tree<RbNode>)
      requires Focus(c, t, y) && t.Node? && t.left.Node?
      modifies this`root, this`turns, nodes`left, nodes`right, nodes`parent
      ensures Focus(c, RotateRight(t), t.left.id)
      ensures turns == old(turns) + 1
    {
      ghost var m := Links();
      HangsAt(c, t, y, root, nil, m);
      ApartRight(c, t, y, root, nil, m);
      RightRotate(y, c);
      RotateRightAt(c, t, y, t.left.id, old(root), root, nil, m, Links());
    }
  
    method Paint(n: RbNode, col: Color)
      requires n in nodes
      modifies n`color
      ensures Links() == Painted(old(Links()), n, col)
    {
      n.color := col;
    }

    // ---- insertion

    /** The insertion loop under a red uncle. */
    method InsertRecolor(z: RbNode, y: RbNode, ghost c: Context<RbNode>, ghost t: Tree<RbNode>) returns (z': RbNode)
      requires Focus(c, t, z) && t.Node? && !c.Top? && !c.up.Top? && Other(c.up).Node? && y == Other(c.up).id
      modifies nodes`color
      ensures Focus(c.up.up, Recolored(c, t), z')
    {
      ghost var m := Links();
      RecolorAt(c, t, z, root, nil, m);
      ParentAt(c, t, z, root, nil, m);
      Paint(z.parent, Black);
      Paint(y, Black);
      Paint(z.parent.parent, Red);
      z' := z.parent.parent;
    }
  
    /** Black uncle, outer left grandchild: paint, then rotate the grandparent right. */
    method InsertSpinRight(z: RbNode, ghost c: Context<RbNode>, ghost t: Tree<RbNode>)
      requires t.Node? && c.InLeft? && c.up.InLeft? && Focus(c, t, z)
      modifies this`root, this`turns, nodes`left, nodes`right, nodes`parent, nodes`color
      ensures Focus(SpinContext(c), t, z)
      ensures turns == old(turns) + 1
    {
      ghost var m, g := Links(), Fill(Tint(c.up, Red), Fill(Tint(c, Black), t));
      SwapColorsAt(c, t, z, root, nil, m);
      ParentAt(c, t, z, root, nil, m);
      Paint(z.parent, Black);
      Paint(z.parent.parent, Red);
      RotateRightAtFocus(z.parent.parent, c.up.up, g);
      MoveDown(c.up.up, RotateRight(g), c.id, root, nil, Links());
    }

    method InsertSpinLeft(z: RbNode, ghost c: Context<RbNode>, ghost t: Tree<RbNode>)
      requires t.Node? && c.InRight? && c.up.InRight? && Focus(c, t, z)
      modifies this`root, this`turns, nodes`left, nodes`right, nodes`parent, nodes`color
      ensures Focus(SpinContext(c), t, z)
      ensures turns == old(turns) + 1
    {
      ghost var m, g := Links(), Fill(Tint(c.up, Red), Fill(Tint(c, Black), t));
      SwapColorsAt(c, t, z, root, nil, m);
      ParentAt(c, t, z, root, nil, m);
      Paint(z.parent, Black);
      Paint(z.parent.parent, Red);
      RotateLeftAtFocus(z.parent.parent, c.up.up, g);
      MoveDown(c.up.up, RotateLeft(g), c.id, root, nil, Links());
    }

    method InsertTurnLeft(z: RbNode, ghost c: Context<RbNode>, ghost t: Tree<RbNode>) returns (z': RbNode)
      requires t.Node? && c.InRight? && Focus(c, t, z)
      modifies this`root, this`turns, nodes`left, nodes`right, nodes`parent
      ensures Focus(TurnContext(c, t), TurnTree(c, t), z')
      ensures turns == old(turns) + 1
    {
      ParentAt(c, t, z, root, nil, Links());
      MoveUp(c, t, z, root, nil, Links());
      z' := z.parent;
      RotateLeftAtFocus(z', c.up, Fill(c, t));
      MoveDown(c.up, RotateLeft(Fill(c, t)), t.id, root, nil, Links());
    }

    method InsertTurnRight(z: RbNode, ghost c: Context<RbNode>, ghost t: Tree<RbNode>) returns (z': RbNode)
      requires t.Node? && c.InLeft? && Focus(c, t, z)
      modifies this`root, this`turns, nodes`left, nodes`right, nodes`parent
      ensures Focus(TurnContext(c, t), TurnTree(c, t), z')
      ensures turns == old(turns) + 1
    {
      ParentAt(c, t, z, root, nil, Links());
      MoveUp(c, t, z, root, nil, Links());
      z' := z.parent;
      RotateRightAtFocus(z', c.up, Fill(c, t));
      MoveDown(c.up, RotateRight(Fill(c, t)), t.id, root, nil, Links());
    }
  
    /** One pass of the insertion loop where the parent is a left child. */
    method InsertPassLeft(z: RbNode, ghost c: Context<RbNode>, ghost t: Tree<RbNode>) returns (z': RbNode)
      requires t.Node? && !c.Top? && c.up.InLeft? && Focus(c, t, z) && nil.color.Black?
      modifies this`root, this`turns, nodes`left, nodes`right, nodes`parent, nodes`color
      ensures Focus(InsertPass(c, t).0, InsertPass(c, t).1, z') && nil.color.Black?
      ensures turns == old(turns) + InsertPass(c, t).2
    {
      FamilyAt(c, t, z, root, nil, Links());
      var y := z.parent.parent.right;
      if y.color == Red {
        z' := InsertRecolor(z, y, c, t);
      } else if z == z.parent.right {
        z' := InsertTurnLeft(z, c, t);
        InsertSpinRight(z', TurnContext(c, t), TurnTree(c, t));
      } else {
        z' := z;
        InsertSpinRight(z', c, t);
      }
    }

    method InsertPassRight(z: RbNode, ghost c: Context<RbNode>, ghost t: Tree<RbNode>) returns (z': RbNode)
      requires t.Node? && !c.Top? && c.up.InRight? && Focus(c, t, z) && nil.color.Black?
      modifies this`root, this`turns, nodes`left, nodes`right, nodes`parent, nodes`color
      ensures Focus(InsertPass(c, t).0, InsertPass(c, t).1, z') && nil.color.Black?
      ensures turns == old(turns) + InsertPass(c, t).2
    {
      FamilyAt(c, t, z, root, nil, Links());
      var y := z.parent.parent.left;
      if y.color == Red {
        z' := InsertRecolor(z, y, c, t);
      } else if z == z.parent.left {
        z' := InsertTurnRight(z, c, t);
        InsertSpinLeft(z', TurnContext(c, t), TurnTree(c, t));
      } else {
        z' := z;
        InsertSpinLeft(z', c, t);
      }
    }

    /** One pass of the insertion loop. */
    method InsertStep(z: RbNode, ghost c: Context<RbNode>, ghost t: Tree<RbNode>, ghost line: seq<RbNode>, ghost k: nat)
      returns (z': RbNode, ghost c': Context<RbNode>, ghost t': Tree<RbNode>, ghost k': nat)
      requires Focus(c, t, z) && InsertLoop(c, t, line, k) && !c.Top? && c.color.Red? && nil.color.Black?
      modifies this`root, this`turns, nodes`left, nodes`right, nodes`parent, nodes`color
      ensures Focus(c', t', z') && Hangs(c', z', root, nil, Links())
      ensures InsertLoop(c', t', line, k') && InsertRank(c') < InsertRank(c)
      ensures turns - old(turns) == k' - k
    {
      InsertPassSound(c, t, line, k);
      FamilyAt(c, t, z, root, nil, Links());
      if z.parent == z.parent.parent.left {
        z' := InsertPassLeft(z, c, t);
      } else {
        z' := InsertPassRight(z, c, t);
      }
      c', t', k' := InsertPass(c, t).0, InsertPass(c, t).1, k + InsertPass(c, t).2;
      HangsAt(c', t', z', root, nil, Links());
    }

    method InsertFinish(z: RbNode, ghost c: Context<RbNode>, ghost t: Tree<RbNode>) returns (ghost after: Tree<RbNode>)
      requires Focus(c, t, z) && Hot(c, t) && (c.Top? || c.color.Black?)
      modifies nodes`color
      ensures Focus(Top, after, root)
      ensures Balanced(after) && !IsRed(after) && Order(after) == Line(c, t)
    {
      HotDone(c, t);
      Zoom(c, t, z, root, nil, Links());
      PlugNode(c, t);
      after := Blackened(Plug(c, t));
      PaintAt(Top, Plug(c, t), root, root, nil, Links(), Black);
      Paint(root, Black);
    }

    /** `rbtree_insert_fixup` */
    method InsertFixup(z: RbNode, ghost c: Context<RbNode>, ghost t: Tree<RbNode>) returns (ghost after: Tree<RbNode>)
      requires Focus(c, t, z) && Hot(c, t) && nil.color.Black?
      modifies this`root, this`turns, nodes`left, nodes`right, nodes`parent, nodes`color
      ensures Repaired(after) && Order(after) == Line(c, t) && Keyed() == old(Keyed())
      ensures old(turns) <= turns <= old(turns) + 2
    {
      after := InsertRepair(z, c, t);
      KeyedKept();
    }

    /** The loop of `rbtree_insert_fixup`. */
    method InsertRepair(z0: RbNode, ghost c0: Context<RbNode>, ghost t0: Tree<RbNode>)
        returns (ghost after: Tree<RbNode>)
      requires Focus(c0, t0, z0) && Hot(c0, t0) && nil.color.Black?
      modifies this`root, this`turns, nodes`left, nodes`right, nodes`parent, nodes`color
      ensures Repaired(after) && Order(after) == Line(c0, t0)
      ensures old(turns) <= turns <= old(turns) + 2
    {
      var z := z0;
      ghost var c, t := c0, t0;
      ghost var rotations := 0;
      HangsAt(c, t, z, root, nil, Links());
      assert nil !in nodes;
      hide Focus, Hot, Balanced, Line;
      while z.parent.color == Red
        invariant Focus(c, t, z) && Hangs(c, z, root, nil, Links()) && nil.color.Black?
        invariant InsertLoop(c, t, Line(c0, t0), rotations) && turns == old(turns) + rotations
        decreases InsertRank(c)
      {
        z, c, t, rotations := InsertStep(z, c, t, Line(c0, t0), rotations);
      }
      after := InsertFinish(z, c, t);
    }

    // ---- deletion

    /** Painting a red sibling black and the parent red, seen from the parent. */
    method PaintSpin(p: RbNode, w: RbNode, ghost c: Context<RbNode>, ghost t: Tree<RbNode>, ghost x: RbNode)
      requires Focus(c, t, x) && !c.Top? && Other(c).Node? && p == c.id && w == Other(c).id
      modifies nodes`color
      ensures Focus(c.up, Fill(Tint(WithOther(c, Blackened(Other(c))), Red), t), p)
    {
      SpinSiblingAt(c, t, x, root, nil, Links());
      Paint(w, Black);
      Paint(p, Red);
    }

    /** The colours before the sibling is lifted over the parent. */
    ghost function Primed(c: Context<RbNode>, t: Tree<RbNode>): Tree<RbNode>
      requires !c.Top? && Other(c).Node?
    {
      Fill(Tint(WithOther(c, Sided(c, Near(c), Other(c).id, c.color, Blackened(Far(c)))), Black), t)
    }

    method PaintLift(p: RbNode, w: RbNode, far: RbNode, ghost c: Context<RbNode>, ghost t: Tree<RbNode>,
        ghost x: RbNode)
      requires Focus(c, t, x) && !c.Top? && Other(c).Node? && Far(c).Node?
      requires p == c.id && w == Other(c).id && far == Far(c).id
      modifies nodes`color
      ensures Focus(c.up, Primed(c, t), p)
    {
      KinAt(c, t, x, root, nil, Links());
      LiftAt(c, t, x, root, nil, Links());
      Paint(w, p.color);
      Paint(p, Black);
      Paint(far, Black);
    }

    /** Red sibling on the right. */
    method DeleteSpinLeft(x: RbNode, w: RbNode, ghost c: Context<RbNode>, ghost t: Tree<RbNode>)
      requires Focus(c, t, x) && c.InLeft? && c.right.Node? && w == c.right.id && x.parent == c.id
      modifies this`root, this`turns, nodes`left, nodes`right, nodes`parent, nodes`color
      ensures Focus(SiblingSpun(c), t, x) && x.parent == c.id
      ensures turns == old(turns) + 1
    {
      ghost var p := Fill(Tint(WithOther(c, Blackened(c.right)), Red), t);
      OccupantAt(c, t, x, root, nil, Links());
      PaintSpin(x.parent, w, c, t, x);
      RotateLeftAtFocus(x.parent, c.up, p);
      MoveDown(c.up, RotateLeft(p), w, root, nil, Links());
      MoveDown(InLeft(w, Black, c.right.right, c.up), Node(t, c.id, Red, c.right.left), c.id, root, nil, Links());
      OccupantAt(SiblingSpun(c), t, x, root, nil, Links());
    }
  
    method DeleteSpinRight(x: RbNode, w: RbNode, ghost c: Context<RbNode>, ghost t: Tree<RbNode>)
      requires Focus(c, t, x) && c.InRight? && c.left.Node? && w == c.left.id && x.parent == c.id
      modifies this`root, this`turns, nodes`left, nodes`right, nodes`parent, nodes`color
      ensures Focus(SiblingSpun(c), t, x) && x.parent == c.id
      ensures turns == old(turns) + 1
    {
      ghost var p := Fill(Tint(WithOther(c, Blackened(c.left)), Red), t);
      OccupantAt(c, t, x, root, nil, Links());
      PaintSpin(x.parent, w, c, t, x);
      RotateRightAtFocus(x.parent, c.up, p);
      MoveDown(c.up, RotateRight(p), w, root, nil, Links());
      MoveDown(InRight(c.left.left, w, Black, c.up), Node(c.left.right, c.id, Red, t), c.id, root, nil, Links());
      OccupantAt(SiblingSpun(c), t, x, root, nil, Links());
    }

    /** Black sibling on the right whose left child is red. */
    method DeleteStraightenRight(x: RbNode, w: RbNode, ghost c: Context<RbNode>, ghost t: Tree<RbNode>)
      requires Focus(c, t, x) && c.InLeft? && c.right.Node? && c.right.left.Node? && w == c.right.id && x.parent == c.id
      modifies this`root, this`turns, nodes`left, nodes`right, nodes`parent, nodes`color
      ensures Focus(Straightened(c), t, x) && x.parent == c.id
      ensures turns == old(turns) + 1
    {
      ghost var s := Sided(c, Blackened(Near(c)), w, Red, Far(c));
      KinAt(c, t, x, root, nil, Links());
      OccupantAt(c, t, x, root, nil, Links());
      StraightenAt(c, t, x, root, nil, Links());
      Paint(w.left, Black);
      Paint(w, Red);
      RotateRightAtFocus(w, Across(c, t), s);
      MoveAcross(Across(c, t), RotateRight(s), s.left.id, root, nil, Links());
      OccupantAt(Straightened(c), t, x, root, nil, Links());
    }

    method DeleteStraightenLeft(x: RbNode, w: RbNode, ghost c: Context<RbNode>, ghost t: Tree<RbNode>)
      requires Focus(c, t, x) && c.InRight? && c.left.Node? && c.left.right.Node? && w == c.left.id && x.parent == c.id
      modifies this`root, this`turns, nodes`left, nodes`right, nodes`parent, nodes`color
      ensures Focus(Straightened(c), t, x) && x.parent == c.id
      ensures turns == old(turns) + 1
    {
      ghost var s := Sided(c, Blackened(Near(c)), w, Red, Far(c));
      KinAt(c, t, x, root, nil, Links());
      OccupantAt(c, t, x, root, nil, Links());
      StraightenAt(c, t, x, root, nil, Links());
      Paint(w.right, Black);
      Paint(w, Red);
      RotateLeftAtFocus(w, Across(c, t), s);
      MoveAcross(Across(c, t), RotateLeft(s), s.right.id, root, nil, Links());
      OccupantAt(Straightened(c), t, x, root, nil, Links());
    }

    /** Black sibling on the right whose right child is red. */
    method DeleteLiftLeft(x: RbNode, w: RbNode, ghost c: Context<RbNode>, ghost t: Tree<RbNode>) returns (x': RbNode)
      requires Focus(c, t, x) && c.InLeft? && c.right.Node?
      requires c.right.right.Node? && w == c.right.id && x.parent == c.id
      modifies this`root, this`turns, nodes`left, nodes`right, nodes`parent, nodes`color
      ensures Focus(Top, Plug(c.up, Lifted(c, t)), x')
      ensures turns == old(turns) + 1
    {
      KinAt(c, t, x, root, nil, Links());
      PaintLift(x.parent, w, w.right, c, t, x);
      RotateLeftAtFocus(x.parent, c.up, Primed(c, t));
      Zoom(c.up, Lifted(c, t), w, root, nil, Links());
      x' := root;
    }

    method DeleteLiftRight(x: RbNode, w: RbNode, ghost c: Context<RbNode>, ghost t: Tree<RbNode>) returns (x': RbNode)
      requires Focus(c, t, x) && c.InRight? && c.left.Node? && c.left.left.Node? && w == c.left.id && x.parent == c.id
      modifies this`root, this`turns, nodes`left, nodes`right, nodes`parent, nodes`color
      ensures Focus(Top, Plug(c.up, Lifted(c, t)), x')
      ensures turns == old(turns) + 1
    {
      KinAt(c, t, x, root, nil, Links());
      PaintLift(x.parent, w, w.left, c, t, x);
      RotateRightAtFocus(x.parent, c.up, Primed(c, t));
      Zoom(c.up, Lifted(c, t), w, root, nil, Links());
      x' := root;
    }
  
    method DeleteRestructureRight(x: RbNode, w0: RbNode, ghost c: Context<RbNode>, ghost t: Tree<RbNode>)
        returns (x': RbNode)
      requires Focus(c, t, x) && c.InLeft? && c.right.Node? && w0 == c.right.id && x.parent == c.id && nil.color.Black?
      requires IsRed(c.right.left) || IsRed(c.right.right)
      modifies this`root, this`turns, nodes`left, nodes`right, nodes`parent, nodes`color
      ensures Focus(BlackSiblingPass(c, t).0, BlackSiblingPass(c, t).1, x')
      ensures turns == old(turns) + BlackSiblingPass(c, t).2
    {
      var w := w0;
      ghost var d := c;
      KinAt(c, t, x, root, nil, Links());
      if w.right.color == Black {
        DeleteStraightenRight(x, w, c, t);
        d := Straightened(c);
        KinAt(d, t, x, root, nil, Links());
        w := x.parent.right;
      }
      x' := DeleteLiftLeft(x, w, d, t);
    }

    /** One pass of the deletion loop with a black sibling on the right. */
    method DeleteBlackRight(x: RbNode, w: RbNode, ghost c: Context<RbNode>, ghost t: Tree<RbNode>) returns (x': RbNode)
      requires Focus(c, t, x) && c.InLeft? && c.right.Node? && w == c.right.id && x.parent == c.id && nil.color.Black?
      modifies this`root, this`turns, nodes`left, nodes`right, nodes`parent, nodes`color
      ensures Focus(BlackSiblingPass(c, t).0, BlackSiblingPass(c, t).1, x')
      ensures turns == old(turns) + BlackSiblingPass(c, t).2
    {
      KinAt(c, t, x, root, nil, Links());
      if w.left.color == Black && w.right.color == Black {
        PaintOther(c, t, x, root, nil, Links(), Red);
        x' := x.parent;
        Paint(w, Red);
        MoveUp(WithOther(c, c.right.(color := Red)), t, x, root, nil, Links());
      } else {
        x' := DeleteRestructureRight(x, w, c, t);
      }
    }

    /** One pass of the deletion loop on a left child. */
    method DeletePassLeft(x: RbNode, ghost c: Context<RbNode>, ghost t: Tree<RbNode>) returns (x': RbNode)
      requires Focus(c, t, x) && c.InLeft? && c.right.Node? && (IsRed(c.right) ==> c.right.left.Node?)
      requires x.parent == c.id && nil.color.Black?
      modifies this`root, this`turns, nodes`left, nodes`right, nodes`parent, nodes`color
      ensures Focus(DeletePass(c, t).0, DeletePass(c, t).1, x')
      ensures turns == old(turns) + DeletePass(c, t).2
    {
      KinAt(c, t, x, root, nil, Links());
      var w := x.parent.right;
      ghost var d := c;
      if w.color == Red {
        DeleteSpinLeft(x, w, c, t);
        d := SiblingSpun(c);
        KinAt(d, t, x, root, nil, Links());
        w := x.parent.right;
      }
      x' := DeleteBlackRight(x, w, d, t);
    }

    method DeleteRestructureLeft(x: RbNode, w0: RbNode, ghost c: Context<RbNode>, ghost t: Tree<RbNode>)
        returns (x': RbNode)
      requires Focus(c, t, x) && c.InRight? && c.left.Node? && w0 == c.left.id && x.parent == c.id && nil.color.Black?
      requires IsRed(c.left.left) || IsRed(c.left.right)
      modifies this`root, this`turns, nodes`left, nodes`right, nodes`parent, nodes`color
      ensures Focus(BlackSiblingPass(c, t).0, BlackSiblingPass(c, t).1, x')
      ensures turns == old(turns) + BlackSiblingPass(c, t).2
    {
      var w := w0;
      ghost var d := c;
      KinAt(c, t, x, root, nil, Links());
      if w.left.color == Black {
        DeleteStraightenLeft(x, w, c, t);
        d := Straightened(c);
        KinAt(d, t, x, root, nil, Links());
        w := x.parent.left;
      }
      x' := DeleteLiftRight(x, w, d, t);
    }

    /** One pass of the deletion loop with a black sibling on the left. */
    method DeleteBlackLeft(x: RbNode, w: RbNode, ghost c: Context<RbNode>, ghost t: Tree<RbNode>) returns (x': RbNode)
      requires Focus(c, t, x) && c.InRight? && c.left.Node? && w == c.left.id && x.parent == c.id && nil.color.Black?
      modifies this`root, this`turns, nodes`left, nodes`right, nodes`parent, nodes`color
      ensures Focus(BlackSiblingPass(c, t).0, BlackSiblingPass(c, t).1, x')
      ensures turns == old(turns) + BlackSiblingPass(c, t).2
    {
      KinAt(c, t, x, root, nil, Links());
      if w.left.color == Black && w.right.color == Black {
        PaintOther(c, t, x, root, nil, Links(), Red);
        x' := x.parent;
        Paint(w, Red);
        MoveUp(WithOther(c, c.left.(color := Red)), t, x, root, nil, Links());
      } else {
        x' := DeleteRestructureLeft(x, w, c, t);
      }
    }

    /** One pass of the deletion loop on a right child. */
    method DeletePassRight(x: RbNode, ghost c: Context<RbNode>, ghost t: Tree<RbNode>) returns (x': RbNode)
      requires Focus(c, t, x) && c.InRight? && c.left.Node? && (IsRed(c.left) ==> c.left.right.Node?)
      requires x.parent == c.id && nil.color.Black?
      modifies this`root, this`turns, nodes`left, nodes`right, nodes`parent, nodes`color
      ensures Focus(DeletePass(c, t).0, DeletePass(c, t).1, x')
      ensures turns == old(turns) + DeletePass(c, t).2
    {
      KinAt(c, t, x, root, nil, Links());
      var w := x.parent.left;
      ghost var d := c;
      if w.color == Red {
        DeleteSpinRight(x, w, c, t);
        d := SiblingSpun(c);
        KinAt(d, t, x, root, nil, Links());
        w := x.parent.left;
      }
      x' := DeleteBlackLeft(x, w, d, t);
    }
  
    method PaintFocus(x: RbNode, ghost c: Context<RbNode>, ghost t: Tree<RbNode>)
      requires Focus(c, t, x)
      modifies x`color
      ensures Focus(c, Blackened(t), x) && x.color.Black?
    {
      ghost var m := Links();
      OccupantAt(c, t, x, root, nil, m);
      if t.Node? {
        PaintAt(c, t, x, root, nil, m, Black);
      }
      x.color := Black;
      assert Links() == if t.Node? then Painted(m, x, Black) else m;
    }

    /** `x` is in focus and its parent link, also that of the sentinel, leads to the frame above. */
    ghost predicate Hung(c: Context<RbNode>, t: Tree<RbNode>, x: RbNode)
      reads this`root, this`nodes, nodes`left, nodes`right, nodes`parent, nodes`color, x`parent
    {
      && Focus(c, t, x) && x.parent == Above(c, nil)
      && Heads(t, x, nil, Links()) && (x == root <==> c.Top?)
    }

    /** One pass of the deletion loop. */
    method DeleteStep(x: RbNode, ghost c: Context<RbNode>, ghost t: Tree<RbNode>, ghost line: seq<RbNode>, ghost k: nat)
      returns (x': RbNode, ghost c': Context<RbNode>, ghost t': Tree<RbNode>, ghost k': nat)
      requires Hung(c, t, x) && DeleteLoop(c, t, line, k) && !c.Top? && !IsRed(t) && nil.color.Black?
      modifies this`root, this`turns, nodes`left, nodes`right, nodes`parent, nodes`color
      ensures Hung(c', t', x') && DeleteLoop(c', t', line, k') && DeleteRank(c', t') < DeleteRank(c, t)
      ensures turns - old(turns) == k' - k
    {
      DeletePassSound(c, t, line, k);
      KinAt(c, t, x, root, nil, Links());
      if x == x.parent.left {
        x' := DeletePassLeft(x, c, t);
      } else {
        x' := DeletePassRight(x, c, t);
      }
      c', t', k' := DeletePass(c, t).0, DeletePass(c, t).1, k + DeletePass(c, t).2;
      OccupantAt(c', t', x', root, nil, Links());
    }

    method DeleteFinish(x: RbNode, ghost c: Context<RbNode>, ghost t: Tree<RbNode>) returns (ghost after: Tree<RbNode>)
      requires Focus(c, t, x) && Short(c, t) && (c.Top? || IsRed(t)) && nil.color.Black?
      modifies nodes`color, nil`color
      ensures Focus(Top, after, root) && nil.color.Black?
      ensures Balanced(after) && !IsRed(after) && Order(after) == Line(c, t)
    {
      ShortDone(c, t);
      OccupantAt(c, t, x, root, nil, Links());
      PaintFocus(x, c, t);
      after := Plug(c, Blackened(t));
      Zoom(c, Blackened(t), x, root, nil, Links());
    }

    /** `rbtree_delete_fixup` */
    method DeleteFixup(x: RbNode, ghost c: Context<RbNode>, ghost t: Tree<RbNode>) returns (ghost after: Tree<RbNode>)
      requires Hung(c, t, x) && Short(c, t) && nil.color.Black?
      modifies this`root, this`turns, nodes`left, nodes`right, nodes`parent, nodes`color, nil`color
      ensures Repaired(after) && Order(after) == Line(c, t) && Keyed() == old(Keyed())
      ensures old(turns) <= turns <= old(turns) + 3
    {
      after := DeleteRepair(x, c, t);
      KeyedKept();
    }

    lemma NilOutside(c: Context<RbNode>, t: Tree<RbNode>, x: RbNode)
      requires Hung(c, t, x)
      ensures nil !in nodes
    {
      OccupantAt(c, t, x, root, nil, Links());
    }

    /** The loop of `rbtree_delete_fixup`. */
    method DeleteRepair(x0: RbNode, ghost c0: Context<RbNode>, ghost t0: Tree<RbNode>)
        returns (ghost after: Tree<RbNode>)
      requires Hung(c0, t0, x0) && Short(c0, t0) && nil.color.Black?
      modifies this`root, this`turns, nodes`left, nodes`right, nodes`parent, nodes`color, nil`color
      ensures Repaired(after) && Order(after) == Line(c0, t0)
      ensures old(turns) <= turns <= old(turns) + 3
    {
      hide Focus, Short, Balanced, Line;
      NilOutside(c0, t0, x0);
      var x := x0;
      ghost var c, t := c0, t0;
      ghost var rotations := 0;
      while x != root && x.color == Black
        invariant Hung(c, t, x) && DeleteLoop(c, t, Line(c0, t0), rotations) && nil.color.Black?
        invariant turns == old(turns) + rotations
        decreases DeleteRank(c, t)
      {
        x, c, t, rotations := DeleteStep(x, c, t, Line(c0, t0), rotations);
      }
      after := DeleteFinish(x, c, t);
    }

    // ---- search

    /** The key, if present, lies in the subtree in focus. */
    ghost predicate Seeking(c: Context<RbNode>, t: Tree<RbNode>, node: RbNode, key: Str)
      reads this`root, this`nodes, this`shape, nodes
    {
      Plug(c, t) == shape && Focus(c, t, node) && Heads(t, node, nil, Links()) && Gap(c, Keyed(), key)
    }

    lemma SeekStep(c: Context<RbNode>, t: Tree<RbNode>, node: RbNode, key: Str)
      requires Valid() && Seeking(c, t, node, key) && t.Node?
      ensures node in nodes
      ensures Compare(key, node.key) < 0 ==> Seeking(InLeft(node, t.color, t.right, c), t.left, node.left, key)
      ensures Compare(key, node.key) > 0 ==> Seeking(InRight(t.left, node, t.color, c), t.right, node.right, key)
      ensures Compare(key, node.key) == 0 ==> key == node.key
    {
      var m := Links();
      PlugLine(c, t);
      Descend(c, t, Keyed(), key);
      CompareFlip(key, node.key);
      CompareZero(key, node.key);
      MoveDown(c, t, node, root, nil, m);
      OccupantAt(InLeft(node, t.color, t.right, c), t.left, node.left, root, nil, m);
      OccupantAt(InRight(t.left, node, t.color, c), t.right, node.right, root, nil, m);
    }

    lemma SeekNil(c: Context<RbNode>, t: Tree<RbNode>, node: RbNode, key: Str)
      requires Seeking(c, t, node, key)
      ensures node == nil <==> t.Leaf?
    {
      OccupantAt(c, t, node, root, nil, Links());
    }

    lemma SeekStart(key: Str)
      requires Valid()
      ensures Seeking(Top, shape, root, key) && (root == nil <==> shape.Leaf?)
    {
      OccupantAt(Top, shape, root, root, nil, Links());
    }

    /** `rbtree_search`: the node with the key, or the sentinel at the place where it would go. */
    method Search(key: Str) returns (node: RbNode, ghost c: Context<RbNode>, ghost t: Tree<RbNode>, ghost steps: nat)
      requires Valid()
      ensures Valid() && View() == old(View()) && Seeking(c, t, node, key) && (node == nil <==> t.Leaf?)
      ensures t.Node? ==> node in nodes && node.key == key
      ensures steps == Depth(c) <= Height(shape) && Pow2(steps) <= (|Contents()| + 1) * (|Contents()| + 1)
    {
      hide Valid, Heads, Focus, Gap, View, Contents, Height, Pow2;
      SeekStart(key);
      node, c, t, steps := root, Top, shape, 0;
      while node != nil
        invariant Valid() && View() == old(View()) && Seeking(c, t, node, key) && (node == nil <==> t.Leaf?)
        invariant steps == Depth(c)
        decreases t
      {
        SeekStep(c, t, node, key);
        if Compare(key, node.key) < 0 {
          c, t, node := InLeft(node, t.color, t.right, c), t.left, node.left;
          steps := steps + 1;
        } else if Compare(key, node.key) > 0 {
          c, t, node := InRight(t.left, node, t.color, c), t.right, node.right;
          steps := steps + 1;
        } else {
          break;
        }
        SeekNil(c, t, node, key);
      }
      StepsBound(c, t);
    }

    lemma StepsBound(c: Context<RbNode>, t: Tree<RbNode>)
      requires Valid() && Plug(c, t) == shape
      ensures Depth(c) <= Height(shape) && Pow2(Depth(c)) <= (|Contents()| + 1) * (|Contents()| + 1)
    {
      DepthHeight(c, t);
      HeightBound(shape);
      Pow2Monotone(Depth(c), Height(shape));
    }

    /** Adopt the shape a fixup ended with. */
    ghost method Settle(after: Tree<RbNode>)
      requires Repaired(after) && Sorted(Listed(Order(after), Keyed()))
      modifies this`shape
      ensures Valid() && shape == after && Contents() == old(Listed(Order(after), Keyed()))
    {
      shape := after;
    }

    // ---- insertion of a node

    method Link(z: RbNode, y: RbNode, ghost c: Context<RbNode>)
      requires y == Above(c, nil) && z !in nodes && nil !in nodes && z != nil && (!c.Top? ==> y in nodes)
      requires !c.Top? ==> (c.InLeft? <==> Compare(z.key, y.key) < 0)
      modifies this`root, this`nodes, nodes`left, nodes`right, z`left, z`right, z`parent, z`color
      ensures nodes == old(nodes) + {z} && Attached(c, z, old(root), root, nil, old(Links()), Links())
    {
      z.parent := y;
      if y == nil {
        root := z;
      } else if Compare(z.key, y.key) < 0 {
        y.left := z;
      } else {
        y.right := z;
      }
      z.left := nil;
      z.right := nil;
      z.color := Red;
      nodes := nodes + {z};
    }

    twostate lemma KeyedKept()
      requires nodes == old(nodes) && forall n :: n in nodes ==> n.key == old(n.key) && n.value == old(n.value)
      ensures Keyed() == old(Keyed())
    {
    }

    twostate lemma KeyedGrown(z: RbNode)
      requires nodes == old(nodes) + {z}
      requires forall n :: n in nodes ==> n.key == old(n.key) && n.value == old(n.value)
      ensures Keyed() == old(Keyed())[z := (z.key, z.value)]
    {
    }

    /** The node hangs in the gap as a red leaf. */
    method Hang(z: RbNode, y: RbNode, ghost c: Context<RbNode>)
      requires Focus(c, Leaf, nil) && z !in nodes && z != nil && y == Above(c, nil)
      requires !c.Top? ==> (c.InLeft? <==> Compare(z.key, y.key) < 0)
      modifies this`root, this`nodes, nodes`left, nodes`right, z`left, z`right, z`parent, z`color
      ensures nodes == old(nodes) + {z} && Focus(c, Node(Leaf, z, Red, Leaf), z)
      ensures Keyed() == old(Keyed())[z := (z.key, z.value)]
    {
      ghost var m := Links();
      OccupantAt(c, Leaf, nil, root, nil, m);
      if !c.Top? {
        ParentAt(c, Leaf, nil, root, nil, m);
      }
      Link(z, y, c);
      KeyedGrown(z);
      AttachAt(c, z, old(root), root, nil, m, Links());
    }

    method InsertIntoGap(z: RbNode, y: RbNode, ghost c: Context<RbNode>) returns (ghost after: Tree<RbNode>)
      requires Focus(c, Leaf, nil) && Hot(c, Node(Leaf, z, Red, Leaf)) && nil.color.Black?
      requires z !in nodes && z != nil && y == Above(c, nil)
      requires !c.Top? ==> (c.InLeft? <==> Compare(z.key, y.key) < 0)
      modifies this`root, this`turns, this`nodes
      modifies nodes`left, nodes`right, nodes`parent, nodes`color, z`left, z`right, z`parent, z`color
      ensures nodes == old(nodes) + {z} && Repaired(after) && old(turns) <= turns <= old(turns) + 2
      ensures Order(after) == Line(c, Node(Leaf, z, Red, Leaf)) && Keyed() == old(Keyed())[z := (z.key, z.value)]
    {
      Hang(z, y, c);
      after := InsertFixup(z, c, Node(Leaf, z, Red, Leaf));
    }

    lemma LineIn(c: Context<RbNode>, t: Tree<RbNode>, x: RbNode)
      requires Focus(c, t, x)
      ensures forall n :: n in Line(c, t) ==> n in nodes
    {
      LineIds(c, t);
      assert Links().Keys == nodes;
    }

    /** The gap a search for the key of `z` ends in takes it as a red leaf. */
    lemma GapShape(z: RbNode, c: Context<RbNode>)
      requires Valid() && Seeking(c, Leaf, nil, z.key)
      ensures Hot(c, Node(Leaf, z, Red, Leaf))
      ensures !c.Top? ==> c.id in nodes && (c.InLeft? <==> Compare(z.key, c.id.key) < 0)
    {
      HotLeaf(c, z);
      if !c.Top? {
        ParentAt(c, Leaf, nil, root, nil, Links());
        GapSide(c, Keyed(), z.key);
      }
    }

    lemma GapContents(z: RbNode, c: Context<RbNode>)
      requires Valid() && Seeking(c, Leaf, nil, z.key) && z !in nodes
      ensures var s := Listed(Line(c, Node(Leaf, z, Red, Leaf)), Keyed()[z := (z.key, z.value)]);
        Sorted(s) && ToMap(s) == View()[z.key := z.value]
      ensures z.key !in View()
    {
      LineIn(c, Leaf, nil);
      FillGap(c, z, Keyed(), (z.key, z.value));
    }

    lemma SeekFocus(z: RbNode, c: Context<RbNode>)
      requires Valid() && Seeking(c, Leaf, nil, z.key)
      ensures Focus(c, Leaf, nil) && nil.color.Black?
    {
    }

    method InsertHere(z: RbNode, y: RbNode, ghost c: Context<RbNode>)
      requires Valid() && z !in nodes && z != nil && Seeking(c, Leaf, nil, z.key) && y == Above(c, nil)
      modifies this`root, this`turns, this`nodes, this`shape
      modifies nodes`left, nodes`right, nodes`parent, nodes`color, z`left, z`right, z`parent, z`color
      ensures Valid() && old(turns) <= turns <= old(turns) + 2 && z.key !in old(View())
      ensures View() == old(View())[z.key := z.value] && nodes == old(nodes) + {z}
    {
      hide Seeking, Focus, Repaired, Listed, Keyed, Valid, Hot, Sorted, ToMap;
      SeekFocus(z, c);
      ghost var after;
      GapShape(z, c);
      GapContents(z, c);
      after := InsertIntoGap(z, y, c);
      Settle(after);
    }

    /** The descent of `rbtree_insert`, which also remembers the parent. */
    method InsertPoint(key: Str) returns (y: RbNode, x: RbNode, ghost c: Context<RbNode>, ghost t: Tree<RbNode>)
      requires Valid()
      ensures Seeking(c, t, x, key) && (x == nil <==> t.Leaf?)
      ensures if t.Node? then x in nodes && x.key == key else y == Above(c, nil)
    {
      y, x, c, t := nil, root, Top, shape;
      OccupantAt(c, t, x, root, nil, Links());
      while x != nil
        invariant Valid() && Seeking(c, t, x, key) && (x == nil <==> t.Leaf?) && y == Above(c, nil)
        decreases t
      {
        y := x;
        SeekStep(c, t, x, key);
        if Compare(key, x.key) < 0 {
          c, t, x := InLeft(x, t.color, t.right, c), t.left, x.left;
        } else if Compare(key, x.key) > 0 {
          c, t, x := InRight(t.left, x, t.color, c), t.right, x.right;
        } else {
          break;
        }
      }
    }

    lemma Present(c: Context<RbNode>, t: Tree<RbNode>, x: RbNode, key: Str)
      requires Valid() && Seeking(c, t, x, key) && t.Node?
      ensures x in nodes && x.key in View() && View()[x.key] == x.value
    {
      PresentListed(c, t, Keyed());
    }

    lemma Absent(c: Context<RbNode>, x: RbNode, key: Str)
      requires Valid() && Seeking(c, Leaf, x, key)
      ensures key !in View()
    {
      AbsentListed(c, Keyed(), key);
    }

    /** `rbtree_insert`: hang the node where the search ends, unless its key is present. */
    method Insert(z: RbNode)
      requires Valid() && z !in nodes && z != nil
      modifies this`root, this`turns, this`nodes, this`shape
      modifies nodes`left, nodes`right, nodes`parent, nodes`color, z`left, z`right, z`parent, z`color
      ensures Valid() && old(turns) <= turns <= old(turns) + 2
      ensures z.key in old(View()) ==> View() == old(View()) && nodes == old(nodes)
      ensures z.key !in old(View()) ==> View() == old(View())[z.key := z.value] && nodes == old(nodes) + {z}
    {
      var y, x;
      ghost var c, t;
      y, x, c, t := InsertPoint(z.key);
      if x != nil {
        Present(c, t, x, z.key);
      } else {
        InsertHere(z, y, c);
      }
    }
  
    // ---- neighbours

    /** `rbtree_mini`: the leftmost node of a subtree. */
    method Mini(x: RbNode, ghost c: Context<RbNode>, ghost t: Tree<RbNode>)
      returns (y: RbNode, ghost e: Context<RbNode>, ghost u: Tree<RbNode>)
      requires Focus(c, t, x) && t.Node?
      ensures Focus(e, u, y) && u.Node? && u.left.Leaf? && Plug(e, u) == Plug(c, t) && Before(e) == Before(c)
      ensures y in nodes && y == u.id && y == Order(t)[0] && Order(t) != []
    {
      y, e, u := x, c, t;
      OccupantAt(e, u, y, root, nil, Links());
      while y.left != nil
        invariant Focus(e, u, y) && u.Node? && Heads(u, y, nil, Links())
        invariant Plug(e, u) == Plug(c, t) && Before(e) == Before(c)
        invariant Order(u) != [] && Order(t) != [] && Order(u)[0] == Order(t)[0]
        decreases u
      {
        MoveDown(e, u, y, root, nil, Links());
        OccupantAt(InLeft(y, u.color, u.right, e), u.left, y.left, root, nil, Links());
        e, u, y := InLeft(y, u.color, u.right, e), u.left, y.left;
      }
      MoveDown(e, u, y, root, nil, Links());
      OccupantAt(InLeft(y, u.color, u.right, e), u.left, y.left, root, nil, Links());
    }
  
    /** The climb of `rbtree_successor`: the first ancestor entered from the left. */
    method Climb(x0: RbNode, ghost c0: Context<RbNode>, ghost t0: Tree<RbNode>) returns (y: RbNode)
      requires Focus(c0, t0, x0) && t0.Node?
      ensures y == if After(c0) == [] then nil else After(c0)[0]
    {
      var x := x0;
      ghost var c, t := c0, t0;
      HangsAt(c, t, x, root, nil, Links());
      y := x.parent;
      while y != nil && x == y.right
        invariant Focus(c, t, x) && t.Node? && Hangs(c, x, root, nil, Links())
        invariant y == Above(c, nil) && After(c) == After(c0)
        decreases c
      {
        MoveUp(c, t, x, root, nil, Links());
        t := Fill(c, t);
        c := c.up;
        HangsAt(c, t, y, root, nil, Links());
        x := y;
        y := y.parent;
      }
    }

    /** `rbtree_successor`: the next node in key order, or the sentinel after the last one. */
    method Successor(x: RbNode, ghost c: Context<RbNode>, ghost t: Tree<RbNode>)
      returns (y: RbNode, ghost e: Context<RbNode>, ghost u: Tree<RbNode>)
      requires Focus(c, t, x) && t.Node?
      ensures var rest := Order(t.right) + After(c); y == if rest == [] then nil else rest[0]
      ensures t.right.Node? ==> Focus(e, u, y) && u.Node? && u.left.Leaf? && Plug(e, u) == Plug(c, t)
      ensures t.right.Node? ==> y in nodes && y == u.id && y != x && Before(e) == Before(c) + Order(t.left) + [x]
    {
      e, u := Top, Leaf;
      MoveDown(c, t, x, root, nil, Links());
      OccupantAt(c, t, x, root, nil, Links());
      OccupantAt(InRight(t.left, x, t.color, c), t.right, x.right, root, nil, Links());
      if x.right != nil {
        y, e, u := Mini(x.right, InRight(t.left, x, t.color, c), t.right);
        OrderHas(t.right, y);
      } else {
        y := Climb(x, c, t);
      }
    }
  
    // ---- deletion of a node

    /** Unlink `y`, which has at most one child, in favour of that child or the sentinel. */
    method Splice(y: RbNode, ghost c: Context<RbNode>) returns (x: RbNode)
      requires Hangs(c, y, root, nil, Links())
      requires var x := if y.left != nil then y.left else y.right;
        x != nil ==> x in nodes && x != y && x != Above(c, nil)
      modifies this`root, this`nodes, nodes`left, nodes`right, nodes`parent, nil`parent
      ensures x == old(if y.left != nil then y.left else y.right)
      ensures nodes == old(nodes) - {y} && x.parent == Above(c, nil)
      ensures Spliced(c, y, x, old(root), root, nil, old(Links()), Links())
    {
      x := nil;
      if y.left != nil {
        x := y.left;
      } else if y.right != nil {
        x := y.right;
      }
      x.parent := y.parent;
      if y.parent == nil {
        root := x;
      } else if y == y.parent.left {
        y.parent.left := x;
      } else {
        y.parent.right := x;
      }
      nodes := nodes - {y};
    }

    /** The node `rbtree_delete` unlinks: `z` itself, or its successor when it has two children. */
    method Victim(z: RbNode, ghost c: Context<RbNode>, ghost t: Tree<RbNode>)
      returns (y: RbNode, ghost e: Context<RbNode>, ghost u: Tree<RbNode>)
      requires Focus(c, t, z) && t.Node?
      ensures Focus(e, u, y) && Chosen(z, c, t, y, e, u) && y in nodes && z in nodes
    {
      e, u := c, t;
      MoveDown(c, t, z, root, nil, Links());
      OccupantAt(c, t, z, root, nil, Links());
      OccupantAt(InLeft(z, t.color, t.right, c), t.left, z.left, root, nil, Links());
      OccupantAt(InRight(t.left, z, t.color, c), t.right, z.right, root, nil, Links());
      if z.left == nil || z.right == nil {
        y := z;
      } else {
        y, e, u := Successor(z, c, t);
      }
    }

    twostate lemma KeyedShrunk(y: RbNode)
      requires nodes == old(nodes) - {y}
      requires forall n :: n in nodes ==> n.key == old(n.key) && n.value == old(n.value)
      ensures Keyed() == old(Keyed()) - {y}
    {
    }

    method Unlink(y: RbNode, ghost c: Context<RbNode>, ghost t: Tree<RbNode>) returns (x: RbNode)
      requires Focus(c, t, y) && t.Node? && (t.left.Leaf? || t.right.Leaf?)
      modifies this`root, this`nodes, nodes`left, nodes`right, nodes`parent, nil`parent
      ensures nodes == old(nodes) - {y} && Keyed() == old(Keyed()) - {y}
      ensures Hung(c, OnlyChild(t), x) && y.color == t.color
    {
      ghost var m := Links();
      SpliceReady(c, t, y, root, nil, m);
      x := Splice(y, c);
      KeyedShrunk(y);
      SpliceAt(c, t, y, x, old(root), root, nil, m, Links());
      OccupantAt(c, OnlyChild(t), x, root, nil, Links());
    }

    /** Repair the balance after a node of colour `col` was unlinked above `x`. */
    method Rebalance(x: RbNode, col: Color, ghost c: Context<RbNode>, ghost t: Tree<RbNode>)
      returns (ghost after: Tree<RbNode>)
      requires t.Node? && (t.left.Leaf? || t.right.Leaf?)
      requires Hung(c, OnlyChild(t), x) && nil.color.Black? && col == t.color
      requires Balanced(Plug(c, t)) && !IsRed(Plug(c, t))
      modifies this`root, this`turns, nodes`left, nodes`right, nodes`parent, nodes`color, nil`color
      ensures Repaired(after) && Order(after) == Line(c, OnlyChild(t))
      ensures old(turns) <= turns <= old(turns) + 3 && Keyed() == old(Keyed())
    {
      SpliceBalance(c, t);
      if col == Black {
        after := DeleteFixup(x, c, OnlyChild(t));
      } else {
        SpliceLine(c, t);
        Zoom(c, OnlyChild(t), x, root, nil, Links());
        after := Plug(c, OnlyChild(t));
      }
    }

    /** Exchange the bindings of the unlinked node and the node to delete, unless they are the same. */
    method SwapBindings(y: RbNode, z: RbNode)
      requires y !in nodes && (y != z ==> z in nodes)
      modifies y`key, y`value, z`key, z`value
      ensures Keyed() == if y == z then old(Keyed()) else old(Keyed())[z := old((y.key, y.value))]
      ensures Links() == old(Links()) && (y.key, y.value) == old((z.key, z.value))
    {
      if y != z {
        var key := z.key;
        z.key := y.key;
        y.key := key;
        var value := z.value;
        z.value := y.value;
        y.value := value;
      }
    }

    method SwapUnder(y: RbNode, z: RbNode, ghost d: Data<RbNode>, ghost e: Context<RbNode>, ghost s: Tree<RbNode>,
        ghost x: RbNode)
      requires y !in nodes && (y != z ==> z in nodes) && Hung(e, s, x)
      requires y in d && d[y] == (y.key, y.value) && Keyed() == d - {y}
      modifies y`key, y`value, z`key, z`value
      ensures Hung(e, s, x) && Keyed() == Shrunk(d, z, y) && (y.key, y.value) == old((z.key, z.value))
    {
      SwapBindings(y, z);
    }

    /** Unlink the node and exchange the bindings. */
    method Extract(z: RbNode, ghost c: Context<RbNode>, ghost t: Tree<RbNode>,
                   y: RbNode, ghost e: Context<RbNode>, ghost u: Tree<RbNode>) returns (x: RbNode)
      requires Focus(e, u, y) && Chosen(z, c, t, y, e, u) && z in nodes && y in nodes
      modifies this`root, this`nodes, nodes`left, nodes`right, nodes`parent, nil`parent, nodes`key, nodes`value
      ensures nodes == old(nodes) - {y} && Hung(e, OnlyChild(u), x) && y.color == u.color
      ensures Keyed() == Shrunk(old(Keyed()), z, y) && (y.key, y.value) == old((z.key, z.value))
    {
      hide Hung, Focus;
      ghost var d := Keyed();
      x := Unlink(y, e, u);
      SwapUnder(y, z, d, e, OnlyChild(u), x);
    }

    lemma ExtractListed(z: RbNode, c: Context<RbNode>, t: Tree<RbNode>, x: RbNode,
                        y: RbNode, e: Context<RbNode>, u: Tree<RbNode>, d: Data<RbNode>)
      requires Chosen(z, c, t, y, e, u) && z in d && y in d && Sorted(Listed(Order(Plug(c, t)), d))
      requires Focus(e, OnlyChild(u), x) && nodes == d.Keys - {y} && Keyed() == Shrunk(d, z, y)
      ensures Sorted(Listed(Line(e, OnlyChild(u)), Keyed()))
      ensures ToMap(Listed(Line(e, OnlyChild(u)), Keyed())) == ToMap(Listed(Order(Plug(c, t)), d)) - {d[z].0}
    {
      LineIn(e, OnlyChild(u), x);
      ShrunkListed(z, c, t, y, e, u, d);
    }

    lemma HungFocus(c: Context<RbNode>, t: Tree<RbNode>, x: RbNode)
      requires Hung(c, t, x)
      ensures Focus(c, t, x)
    {
    }

    method Withdraw(z: RbNode, ghost c: Context<RbNode>, ghost t: Tree<RbNode>,
                    y: RbNode, ghost e: Context<RbNode>, ghost u: Tree<RbNode>) returns (x: RbNode)
      requires Focus(e, u, y) && Chosen(z, c, t, y, e, u) && z in nodes && y in nodes
      requires Plug(c, t) == shape && Sorted(Contents())
      modifies this`root, this`nodes, nodes`left, nodes`right, nodes`parent, nil`parent, nodes`key, nodes`value
      ensures nodes == old(nodes) - {y} && Hung(e, OnlyChild(u), x) && y.color == u.color
      ensures (y.key, y.value) == old((z.key, z.value)) && Sorted(Listed(Line(e, OnlyChild(u)), Keyed()))
      ensures ToMap(Listed(Line(e, OnlyChild(u)), Keyed())) == old(View()) - {old(z.key)}
    {
      hide Hung, Focus;
      x := Extract(z, c, t, y, e, u);
      HungFocus(e, OnlyChild(u), x);
      ExtractListed(z, c, t, x, y, e, u, old(Keyed()));
    }

    method Conclude(x: RbNode, col: Color, ghost e: Context<RbNode>, ghost u: Tree<RbNode>)
      requires u.Node? && (u.left.Leaf? || u.right.Leaf?)
      requires Hung(e, OnlyChild(u), x) && nil.color.Black? && col == u.color
      requires Balanced(Plug(e, u)) && !IsRed(Plug(e, u)) && Sorted(Listed(Line(e, OnlyChild(u)), Keyed()))
      modifies this`root, this`turns, this`shape, nodes`left, nodes`right, nodes`parent, nodes`color, nil`color
      ensures Valid() && View() == ToMap(old(Listed(Line(e, OnlyChild(u)), Keyed())))
      ensures old(turns) <= turns <= old(turns) + 3
    {
      hide Hung, Focus, Repaired, Valid, Keyed, Listed, Balanced;
      ghost var after;
      after := Rebalance(x, col, e, u);
      Settle(after);
    }

    method DeleteVictim(z: RbNode, ghost c: Context<RbNode>, ghost t: Tree<RbNode>,
                        y: RbNode, ghost e: Context<RbNode>, ghost u: Tree<RbNode>)
      requires Focus(e, u, y) && Chosen(z, c, t, y, e, u) && z in nodes && y in nodes
      requires Plug(c, t) == shape && Sorted(Contents()) && nil.color.Black?
      requires Balanced(Plug(e, u)) && !IsRed(Plug(e, u))
      modifies this`root, this`turns, this`nodes, this`shape, nodes, nil`parent, nil`color
      ensures Valid() && nodes == old(nodes) - {y} && old(turns) <= turns <= old(turns) + 3
      ensures View() == old(View()) - {old(z.key)} && (y.key, y.value) == old((z.key, z.value))
    {
      hide Hung, Focus, Valid, Keyed, Listed;
      var x := Withdraw(z, c, t, y, e, u);
      Conclude(x, y.color, e, u);
    }

    /** `rbtree_delete`: returns the unlinked node, which ends up with the deleted binding. */
    method Delete(z: RbNode, ghost c: Context<RbNode>, ghost t: Tree<RbNode>) returns (y: RbNode)
      requires Valid() && Focus(c, t, z) && t.Node? && Plug(c, t) == shape
      modifies this`root, this`turns, this`nodes, this`shape, nodes, nil`parent, nil`color
      ensures Valid() && y in old(nodes) && nodes == old(nodes) - {y} && old(turns) <= turns <= old(turns) + 3
      ensures z in old(nodes) && View() == old(View()) - {old(z.key)} && (y.key, y.value) == old((z.key, z.value))
    {
      ghost var e, u;
      y, e, u := Victim(z, c, t);
      DeleteVictim(z, c, t, y, e, u);
    }
  
    // ---- the engine interface

    method Find(key: Str) returns (node: RbNode, ghost c: Context<RbNode>, ghost t: Tree<RbNode>)
      requires Valid()
      ensures Valid() && View() == old(View())
      ensures node == nil <==> key !in View()
      ensures node != nil ==> Focus(c, t, node) && t.Node? && Plug(c, t) == shape
      ensures node != nil ==> node in nodes && node.key == key && node.value == View()[key]
    {
      ghost var steps;
      node, c, t, steps := Search(key);
      if node == nil {
        Absent(c, node, key);
      } else {
        Present(c, t, node, key);
      }
    }

    method Add(key: Str, value: Str)
      requires Valid() && key !in View()
      modifies this`root, this`turns, this`nodes, this`shape, nodes`left, nodes`right, nodes`parent, nodes`color
      ensures Valid() && fresh(nodes - old(nodes)) && View() == old(View())[key := value]
    {
      hide Valid;
      var node := new RbNode(key, value);
      Insert(node);
    }

    method Assign(node: RbNode, value: Str)
      requires node in nodes
      modifies node`value
      ensures Keyed() == old(Keyed())[node := (node.key, value)]
    {
      node.value := value;
    }

    method Rebind(node: RbNode, value: Str, ghost c: Context<RbNode>, ghost t: Tree<RbNode>)
      requires Repaired(shape) && Sorted(Contents())
      requires node in nodes && t.Node? && t.id == node && Plug(c, t) == shape
      modifies node`value
      ensures Repaired(shape) && Sorted(Contents()) && View() == old(View())[node.key := value]
    {
      RebindListed(c, t, Keyed(), value);
      Assign(node, value);
    }

    /** `kvs_rbtree_set` */
    method Set(key: Str, value: Str) returns (code: int)
      requires Valid()
      modifies this, nodes
      ensures Valid() && fresh(nodes - old(nodes))
      ensures code == if key in old(View()) then 1 else 0
      ensures View() == if key in old(View()) then old(View()) else old(View())[key := value]
    {
      var existing;
      ghost var c, t;
      existing, c, t := Find(key);
      if existing != nil {
        return 1;
      }
      Add(key, value);
      return 0;
    }

    /** `kvs_rbtree_get` */
    method Get(key: Str) returns (r: Store.Reply)
      requires Valid()
      ensures r == if key in View() then Store.Value(View()[key]) else Store.Missing
    {
      var node;
      ghost var c, t;
      node, c, t := Find(key);
      return if node == nil then Store.Missing else Store.Value(node.value);
    }

    /** `kvs_rbtree_exist` */
    method Exist(key: Str) returns (code: int)
      requires Valid()
      ensures code == if key in View() then 0 else 1
    {
      var node;
      ghost var c, t;
      node, c, t := Find(key);
      return if node == nil then 1 else 0;
    }

    /** `kvs_rbtree_del` */
    method Del(key: Str) returns (code: int)
      requires Valid()
      modifies this, nil, nodes
      ensures Valid() && nodes <= old(nodes)
      ensures code == if key in old(View()) then 0 else 1
      ensures View() == old(View()) - {key}
    {
      var node;
      ghost var c, t;
      node, c, t := Find(key);
      if node == nil {
        return 1;
      }
      var cur;
      cur := Delete(node, c, t);
      return 0;
    }

    /** `kvs_rbtree_mod` */
    method Mod(key: Str, value: Str) returns (code: int)
      requires Valid()
      modifies nodes
      ensures Valid() && nodes == old(nodes)
      ensures code == if key in old(View()) then 0 else 1
      ensures View() == if key in old(View()) then old(View())[key := value] else old(View())
    {
      var node;
      ghost var c, t;
      node, c, t := Find(key);
      if node == nil {
        return 1;
      }
      Rebind(node, value, c, t);
      return 0;
    }
  }
}
