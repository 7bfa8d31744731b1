/** Shapes of red-black trees: a tree, the path of frames above a subtree (its context),
    and the balance conditions both fixup loops work with. `N` is the type of the nodes. */
module RbShape {

  datatype Color = Red | Black

  datatype Tree<N> = Leaf | Node(left: Tree<N>, id: N, color: Color, right: Tree<N>)

  /** The part of a tree above one subtree, innermost frame first. */
  datatype Context<N> =
    | Top
    | InLeft(id: N, color: Color, right: Tree<N>, up: Context<N>)
    | InRight(left: Tree<N>, id: N, color: Color, up: Context<N>)

  ghost function Ids<N>(t: Tree<N>): set<N> {
    match t
    case Leaf => {}
    case Node(l, id, _, r) => Ids(l) + {id} + Ids(r)
  }

  ghost function ContextIds<N>(c: Context<N>): set<N> {
    match c
    case Top => {}
    case InLeft(id, _, r, up) => {id} + Ids(r) + ContextIds(up)
    case InRight(l, id, _, up) => {id} + Ids(l) + ContextIds(up)
  }

  function Plug<N>(c: Context<N>, t: Tree<N>): Tree<N> {
    match c
    case Top => t
    case InLeft(id, col, r, up) => Plug(up, Node(t, id, col, r))
    case InRight(l, id, col, up) => Plug(up, Node(l, id, col, t))
  }

  /** The subtree one step up. */
  function Fill<N>(c: Context<N>, t: Tree<N>): Tree<N>
    requires !c.Top?
  {
    if c.InLeft? then Node(t, c.id, c.color, c.right) else Node(c.left, c.id, c.color, t)
  }

  /** The sibling of the subtree in the hole. */
  function Other<N>(c: Context<N>): Tree<N>
    requires !c.Top?
  {
    if c.InLeft? then c.right else c.left
  }

  function WithOther<N>(c: Context<N>, t: Tree<N>): Context<N>
    requires !c.Top?
  {
    if c.InLeft? then c.(right := t) else c.(left := t)
  }

  function Tint<N>(c: Context<N>, col: Color): Context<N>
    requires !c.Top?
  {
    c.(color := col)
  }

  /** The nodes of a tree from left to right. */
  function Order<N>(t: Tree<N>): seq<N> {
    match t
    case Leaf => []
    case Node(l, id, _, r) => Order(l) + [id] + Order(r)
  }

  function Before<N>(c: Context<N>): seq<N> {
    match c
    case Top => []
    case InLeft(_, _, _, up) => Before(up)
    case InRight(l, id, _, up) => Before(up) + Order(l) + [id]
  }

  function After<N>(c: Context<N>): seq<N> {
    match c
    case Top => []
    case InLeft(id, _, r, up) => [id] + Order(r) + After(up)
    case InRight(_, _, _, up) => After(up)
  }

  /** All nodes in order, seen from a subtree and its context. */
  function Line<N>(c: Context<N>, t: Tree<N>): seq<N> {
    Before(c) + Order(t) + After(c)
  }

  function Depth<N>(c: Context<N>): nat {
    if c.Top? then 0 else 1 + Depth(c.up)
  }

  lemma UpLeft<N>(a: seq<N>, b: seq<N>, x: N, d: seq<N>, e: seq<N>)
    ensures a + (b + [x] + d) + e == a + b + ([x] + d + e)
  {
  }

  lemma UpRight<N>(a: seq<N>, b: seq<N>, x: N, d: seq<N>, e: seq<N>)
    ensures a + (b + [x] + d) + e == (a + b + [x]) + d + e
  {
  }

  lemma Regroup<N>(a: seq<N>, l: seq<N>, x: N, r: seq<N>, e: seq<N>)
    ensures a + (l + [x] + r) + e == a + l + [x] + (r + e)
    ensures l == [] ==> a + r + e == a + l + (r + e)
    ensures r == [] ==> a + l + e == a + l + (r + e)
  {
  }

  lemma {:induction false} PlugLine<N>(c: Context<N>, t: Tree<N>)
    ensures Order(Plug(c, t)) == Line(c, t)
    decreases c
  {
    match c
    case Top =>
    case InLeft(id, col, r, up) =>
      PlugLine(up, Node(t, id, col, r));
      UpLeft(Before(up), Order(t), id, Order(r), After(up));
    case InRight(l, id, col, up) =>
      PlugLine(up, Node(l, id, col, t));
      UpRight(Before(up), Order(l), id, Order(t), After(up));
  }

  lemma {:induction false} PlugNode<N>(c: Context<N>, t: Tree<N>)
    requires t.Node?
    ensures Plug(c, t).Node?
    decreases c
  {
    if !c.Top? {
      PlugNode(c.up, Fill(c, t));
    }
  }

  lemma FillLine<N>(c: Context<N>, t: Tree<N>)
    requires !c.Top?
    ensures Line(c.up, Fill(c, t)) == Line(c, t)
  {
    if c.InLeft? {
      UpLeft(Before(c.up), Order(t), c.id, Order(c.right), After(c.up));
    } else {
      UpRight(Before(c.up), Order(c.left), c.id, Order(t), After(c.up));
    }
  }

  lemma {:induction false} PlugIds<N>(c: Context<N>, t: Tree<N>)
    ensures Ids(Plug(c, t)) == Ids(t) + ContextIds(c)
    decreases c
  {
    match c
    case Top =>
    case InLeft(id, col, r, up) => PlugIds(up, Node(t, id, col, r));
    case InRight(l, id, col, up) => PlugIds(up, Node(l, id, col, t));
  }

  lemma {:induction false} OrderHas<N>(t: Tree<N>, n: N)
    ensures n in Order(t) <==> n in Ids(t)
  {
    match t
    case Leaf =>
    case Node(l, id, _, r) => OrderHas(l, n); OrderHas(r, n);
  }

  lemma OrderIds<N>(t: Tree<N>)
    ensures forall n :: n in Order(t) ==> n in Ids(t)
  {
    forall n | n in Order(t) ensures n in Ids(t) {
      OrderHas(t, n);
    }
  }

  lemma {:induction false} ContextLine<N>(c: Context<N>, n: N)
    requires n in Before(c) || n in After(c)
    ensures n in ContextIds(c)
  {
    if c.InLeft? {
      OrderHas(c.right, n);
      if n != c.id && n !in Order(c.right) {
        ContextLine(c.up, n);
      }
    } else {
      OrderHas(c.left, n);
      if n != c.id && n !in Order(c.left) {
        ContextLine(c.up, n);
      }
    }
  }

  lemma LineIds<N>(c: Context<N>, t: Tree<N>)
    ensures forall n :: n in Line(c, t) ==> n in Ids(t) + ContextIds(c)
  {
    forall n | n in Line(c, t) ensures n in Ids(t) + ContextIds(c) {
      OrderHas(t, n);
      if n !in Order(t) {
        ContextLine(c, n);
      }
    }
  }

  // ---- colours and black heights

  predicate IsRed<N>(t: Tree<N>) {
    t.Node? && t.color.Red?
  }

  function Blackened<N>(t: Tree<N>): Tree<N> {
    if t.Node? then t.(color := Black) else t
  }

  function Step(c: Color): nat {
    if c.Black? then 1 else 0
  }

  /** Black nodes on the leftmost path. */
  function BlackHeight<N>(t: Tree<N>): nat {
    if t.Leaf? then 0 else BlackHeight(t.left) + Step(t.color)
  }

  /** No red node has a red child, and every path down meets equally many black nodes. */
  predicate Balanced<N>(t: Tree<N>) {
    t.Node? ==>
      && Balanced(t.left) && Balanced(t.right)
      && BlackHeight(t.left) == BlackHeight(t.right)
      && (t.color.Red? ==> !IsRed(t.left) && !IsRed(t.right))
  }

  /** The context can be filled with any balanced tree of black height `h`,
      with a red root allowed when `red` holds. */
  predicate Fits<N>(c: Context<N>, h: nat, red: bool)
    decreases c
  {
    if c.Top? then !red
    else
      Balanced(Other(c)) && BlackHeight(Other(c)) == h && (c.color.Red? ==> !red && !IsRed(Other(c)))
      && Fits(c.up, h + Step(c.color), c.color.Red?)
  }

  lemma {:induction false} PlugBalanced<N>(c: Context<N>, t: Tree<N>)
    requires Balanced(t) && Fits(c, BlackHeight(t), IsRed(t))
    ensures Balanced(Plug(c, t)) && !IsRed(Plug(c, t))
    decreases c
  {
    if !c.Top? {
      FillBalanced(c, t);
      PlugBalanced(c.up, Fill(c, t));
    }
  }

  lemma FillBalanced<N>(c: Context<N>, t: Tree<N>)
    requires Balanced(t) && Fits(c, BlackHeight(t), IsRed(t)) && !c.Top?
    ensures Balanced(Fill(c, t)) && Fits(c.up, BlackHeight(Fill(c, t)), IsRed(Fill(c, t)))
  {
  }

  lemma {:induction false} UnplugBalanced<N>(c: Context<N>, t: Tree<N>)
    requires Balanced(Plug(c, t)) && !IsRed(Plug(c, t))
    ensures Balanced(t) && Fits(c, BlackHeight(t), IsRed(t))
    decreases c
  {
    match c
    case Top =>
    case InLeft(id, col, r, up) => UnplugBalanced(up, Node(t, id, col, r));
    case InRight(l, id, col, up) => UnplugBalanced(up, Node(l, id, col, t));
  }

  // ---- rotations

  function RotateLeft<N>(t: Tree<N>): (r: Tree<N>)
    requires t.Node? && t.right.Node?
    ensures Order(r) == Order(t) && Ids(r) == Ids(t)
  {
    var y := t.right;
    assert Order(t.left) + [t.id] + (Order(y.left) + [y.id] + Order(y.right))
        == Order(t.left) + [t.id] + Order(y.left) + [y.id] + Order(y.right);
    Node(Node(t.left, t.id, t.color, y.left), y.id, y.color, y.right)
  }

  function RotateRight<N>(t: Tree<N>): (r: Tree<N>)
    requires t.Node? && t.left.Node?
    ensures Order(r) == Order(t) && Ids(r) == Ids(t)
  {
    var x := t.left;
    assert Order(x.left) + [x.id] + (Order(x.right) + [t.id] + Order(t.right))
        == Order(x.left) + [x.id] + Order(x.right) + [t.id] + Order(t.right);
    Node(x.left, x.id, x.color, Node(x.right, t.id, t.color, t.right))
  }

  // ---- insertion

  /** `t` is sound but its red root may sit under a red parent, or at the top. */
  predicate Hot<N>(c: Context<N>, t: Tree<N>) {
    IsRed(t) && Balanced(t) && Fits(c, BlackHeight(t), false)
  }

  /** A red parent has a black grandparent. */
  lemma HotGrandparent<N>(c: Context<N>, t: Tree<N>)
    requires Hot(c, t) && !c.Top? && c.color.Red?
    ensures !c.up.Top? && c.up.color.Black?
  {
    assert Fits(c.up, BlackHeight(t), true);
  }

  /** Red uncle: the blackness of the grandparent is pushed down. */
  function Recolored<N>(c: Context<N>, t: Tree<N>): Tree<N>
    requires !c.Top? && !c.up.Top?
  {
    Fill(WithOther(Tint(c.up, Red), Blackened(Other(c.up))), Fill(Tint(c, Black), t))
  }

  /** ... and the trouble moves up two levels. */
  lemma HotRecolor<N>(c: Context<N>, t: Tree<N>)
    requires Hot(c, t) && !c.Top? && c.color.Red? && !c.up.Top? && IsRed(Other(c.up))
    ensures Hot(c.up.up, Recolored(c, t))
  {
    assert Fits(c.up, BlackHeight(t), true);
  }

  /** Inner grandchild: the parent is rotated down and becomes the node in trouble. */
  function TurnContext<N>(c: Context<N>, t: Tree<N>): Context<N>
    requires !c.Top? && t.Node?
  {
    if c.InRight? then InLeft(t.id, t.color, t.right, c.up) else InRight(t.left, t.id, t.color, c.up)
  }

  function TurnTree<N>(c: Context<N>, t: Tree<N>): Tree<N>
    requires !c.Top? && t.Node?
  {
    if c.InRight? then Node(c.left, c.id, c.color, t.left) else Node(t.right, c.id, c.color, c.right)
  }

  lemma HotTurn<N>(c: Context<N>, t: Tree<N>)
    requires Hot(c, t) && !c.Top? && c.color.Red?
    ensures Hot(TurnContext(c, t), TurnTree(c, t))
  {
  }

  /** Outer grandchild: the grandparent, painted red, is rotated to the other side. */
  function SpinContext<N>(c: Context<N>): Context<N>
    requires !c.Top? && !c.up.Top?
  {
    if c.InLeft? then InLeft(c.id, Black, Node(c.right, c.up.id, Red, Other(c.up)), c.up.up)
    else InRight(Node(Other(c.up), c.up.id, Red, c.left), c.id, Black, c.up.up)
  }

  lemma HotSpin<N>(c: Context<N>, t: Tree<N>)
    requires Hot(c, t) && !c.Top? && c.color.Red? && !c.up.Top? && !IsRed(Other(c.up))
    ensures Hot(SpinContext(c), t)
  {
    assert Fits(c.up, BlackHeight(t), true);
  }

  /** No step of the insertion loop reorders nodes. */
  lemma InsertLines<N>(c: Context<N>, t: Tree<N>)
    requires !c.Top? && !c.up.Top? && t.Node?
    ensures Line(c.up.up, Recolored(c, t)) == Line(c, t)
    ensures Line(TurnContext(c, t), TurnTree(c, t)) == Line(c, t)
  {
    var c1, c2 := Tint(c, Black), WithOther(Tint(c.up, Red), Blackened(Other(c.up)));
    FillLine(c1, t);
    FillLine(c2, Fill(c1, t));
    FillLine(c, t);
    FillLine(TurnContext(c, t), TurnTree(c, t));
    assert Fill(TurnContext(c, t), TurnTree(c, t)) ==
      if c.InRight? then RotateLeft(Fill(c, t)) else RotateRight(Fill(c, t));
  }

  lemma SpinLine<N>(c: Context<N>, t: Tree<N>)
    requires !c.Top? && !c.up.Top? && c.InLeft? == c.up.InLeft?
    ensures Line(SpinContext(c), t) == Line(c, t)
  {
    var c1, c2 := Tint(c, Black), Tint(c.up, Red);
    FillLine(c1, t);
    FillLine(c2, Fill(c1, t));
    FillLine(SpinContext(c), t);
    var g := Fill(c2, Fill(c1, t));
    assert Fill(SpinContext(c), t) == if c.InLeft? then RotateRight(g) else RotateLeft(g);
  }

  /** One pass of the insertion loop: the new context, the new subtree and the rotations made. */
  predicate Inner<N>(c: Context<N>)
    requires !c.Top? && !c.up.Top?
  {
    c.InLeft? != c.up.InLeft?
  }

  function InsertPass<N>(c: Context<N>, t: Tree<N>): (Context<N>, Tree<N>, nat)
    requires !c.Top? && !c.up.Top? && t.Node?
  {
    if IsRed(Other(c.up)) then (c.up.up, Recolored(c, t), 0)
    else if Inner(c) then (SpinContext(TurnContext(c, t)), TurnTree(c, t), 2)
    else (SpinContext(c), t, 1)
  }

  /** Invariant of the insertion loop: once it has rotated, it is about to end. */
  ghost predicate InsertLoop<N>(c: Context<N>, t: Tree<N>, line: seq<N>, rotations: nat) {
    Hot(c, t) && Line(c, t) == line && rotations <= 2 && (rotations > 0 ==> !c.Top? && c.color.Black?)
  }

  function InsertRank<N>(c: Context<N>): nat {
    if c.Top? || c.color.Black? then 0 else 1 + Depth(c)
  }

  lemma InsertPassSound<N>(c: Context<N>, t: Tree<N>, line: seq<N>, k: nat)
    requires InsertLoop(c, t, line, k) && !c.Top? && c.color.Red?
    ensures !c.up.Top?
    ensures var (c', t', k') := InsertPass(c, t);
      InsertLoop(c', t', line, k + k') && InsertRank(c') < InsertRank(c)
  {
    HotGrandparent(c, t);
    InsertLines(c, t);
    if IsRed(Other(c.up)) {
      HotRecolor(c, t);
      assert Depth(c.up) == 1 + Depth(c.up.up);
    } else if Inner(c) {
      HotTurn(c, t);
      HotSpin(TurnContext(c, t), TurnTree(c, t));
      SpinLine(TurnContext(c, t), TurnTree(c, t));
    } else {
      HotSpin(c, t);
      SpinLine(c, t);
    }
  }

  /** Under a black parent, or at the top, painting the root black finishes the insertion. */
  lemma HotDone<N>(c: Context<N>, t: Tree<N>)
    requires Hot(c, t) && (c.Top? || c.color.Black?)
    ensures Balanced(Blackened(Plug(c, t))) && !IsRed(Blackened(Plug(c, t)))
    ensures Order(Blackened(Plug(c, t))) == Line(c, t)
  {
    PlugLine(c, t);
    if !c.Top? {
      PlugBalanced(c, t);
    }
  }

  // ---- deletion

  /** `t` is one black node short of what its context needs; its root may be red over red. */
  predicate Short<N>(c: Context<N>, t: Tree<N>) {
    && Balanced(Blackened(t)) && (t.Node? ==> BlackHeight(t.left) == BlackHeight(t.right))
    && (!IsRed(t) ==> Balanced(t))
    && Fits(c, BlackHeight(t) + 1, false)
  }

  /** The children of the sibling, nearer to and farther from the hole. */
  function Near<N>(c: Context<N>): Tree<N>
    requires !c.Top? && Other(c).Node?
  {
    if c.InLeft? then c.right.left else c.left.right
  }

  function Far<N>(c: Context<N>): Tree<N>
    requires !c.Top? && Other(c).Node?
  {
    if c.InLeft? then c.right.right else c.left.left
  }

  /** A tree with children `near` and `far`, as seen from the hole of `c`. */
  function Sided<N>(c: Context<N>, near: Tree<N>, id: N, col: Color, far: Tree<N>): Tree<N> {
    if c.InLeft? then Node(near, id, col, far) else Node(far, id, col, near)
  }

  /** Red sibling: rotated over the parent, it leaves a black sibling and a red parent. */
  function SiblingSpun<N>(c: Context<N>): Context<N>
    requires !c.Top? && Other(c).Node?
  {
    if c.InLeft? then InLeft(c.id, Red, c.right.left, InLeft(c.right.id, Black, c.right.right, c.up))
    else InRight(c.left.right, c.id, Red, InRight(c.left.left, c.left.id, Black, c.up))
  }

  /** Black sibling with black children, painted red; seen from the parent. */
  function SiblingReddened<N>(c: Context<N>, t: Tree<N>): Tree<N>
    requires !c.Top? && Other(c).Node?
  {
    Fill(WithOther(c, Other(c).(color := Red)), t)
  }

  /** Black sibling whose near child is red: that child is rotated over it. */
  function Straightened<N>(c: Context<N>): Context<N>
    requires !c.Top? && Other(c).Node? && Near(c).Node?
  {
    var w := Sided(c, Blackened(Near(c)), Other(c).id, Red, Far(c));
    WithOther(c, if c.InLeft? then RotateRight(w) else RotateLeft(w))
  }

  /** Black sibling whose far child is red: the sibling is rotated over the parent. */
  function Lifted<N>(c: Context<N>, t: Tree<N>): Tree<N>
    requires !c.Top? && Other(c).Node?
  {
    var p := Fill(Tint(WithOther(c, Sided(c, Near(c), Other(c).id, c.color, Blackened(Far(c)))), Black), t);
    if c.InLeft? then RotateLeft(p) else RotateRight(p)
  }

  /** One pass of the deletion loop once the sibling is black. */
  function BlackSiblingPass<N>(c: Context<N>, t: Tree<N>): (Context<N>, Tree<N>, nat)
    requires !c.Top? && Other(c).Node?
  {
    if !IsRed(Near(c)) && !IsRed(Far(c)) then (c.up, SiblingReddened(c, t), 0)
    else if !IsRed(Far(c)) then (Top, Plug(c.up, Lifted(Straightened(c), t)), 2)
    else (Top, Plug(c.up, Lifted(c, t)), 1)
  }

  /** One pass of the deletion loop: the new context, the new subtree and the rotations made. */
  function DeletePass<N>(c: Context<N>, t: Tree<N>): (Context<N>, Tree<N>, nat)
    requires !c.Top? && Other(c).Node? && (IsRed(Other(c)) ==> Near(c).Node?)
  {
    if IsRed(Other(c)) then
      var (c', t', k) := BlackSiblingPass(SiblingSpun(c), t);
      (c', t', k + 1)
    else BlackSiblingPass(c, t)
  }

  /** The sibling of a short subtree is a real node, and so are the children of a red one. */
  lemma ShortSibling<N>(c: Context<N>, t: Tree<N>)
    requires Short(c, t) && !c.Top?
    ensures Other(c).Node? && (IsRed(Other(c)) ==> Near(c).Node? && Far(c).Node?)
  {
  }

  lemma ShortSpun<N>(c: Context<N>, t: Tree<N>)
    requires Short(c, t) && !c.Top? && !IsRed(t) && IsRed(Other(c))
    ensures Near(c).Node? && !IsRed(Near(c)) && Short(SiblingSpun(c), t)
  {
  }

  lemma ShortReddened<N>(c: Context<N>, t: Tree<N>)
    requires Short(c, t) && !c.Top? && !IsRed(t) && Other(c).Node? && !IsRed(Other(c))
    requires !IsRed(Near(c)) && !IsRed(Far(c))
    ensures Short(c.up, SiblingReddened(c, t))
  {
    assert Fits(c.up, BlackHeight(t) + 1 + Step(c.color), c.color.Red?);
  }

  lemma ShortStraightened<N>(c: Context<N>, t: Tree<N>)
    requires Short(c, t) && !c.Top? && !IsRed(t) && Other(c).Node? && !IsRed(Other(c))
    requires IsRed(Near(c)) && !IsRed(Far(c))
    ensures var d := Straightened(c); Short(d, t) && Other(d).Node? && !IsRed(Other(d)) && IsRed(Far(d))
  {
    assert Balanced(Near(c)) && Balanced(Far(c));
  }

  lemma ShortLifted<N>(c: Context<N>, t: Tree<N>)
    requires Short(c, t) && !c.Top? && !IsRed(t) && Other(c).Node? && !IsRed(Other(c)) && IsRed(Far(c))
    ensures var r := Lifted(c, t); Balanced(r) && Fits(c.up, BlackHeight(r), IsRed(r))
  {
    assert Balanced(Near(c)) && Balanced(Far(c));
  }

  /** No step of the deletion loop reorders nodes. */
  lemma DeleteLines<N>(c: Context<N>, t: Tree<N>)
    requires !c.Top? && Other(c).Node?
    ensures Line(SiblingSpun(c), t) == Line(c, t)
    ensures Line(c.up, SiblingReddened(c, t)) == Line(c, t)
  {
    var w := Tint(WithOther(c, Blackened(Other(c))), Red);
    FillLine(w, t);
    FillLine(SiblingSpun(c), t);
    FillLine(SiblingSpun(c).up, Fill(SiblingSpun(c), t));
    assert Fill(SiblingSpun(c).up, Fill(SiblingSpun(c), t)) ==
      if c.InLeft? then RotateLeft(Fill(w, t)) else RotateRight(Fill(w, t));
    FillLine(WithOther(c, Other(c).(color := Red)), t);
  }

  lemma LiftedLine<N>(c: Context<N>, t: Tree<N>)
    requires !c.Top? && Other(c).Node?
    ensures Line(c.up, Lifted(c, t)) == Line(c, t)
  {
    var w := Sided(c, Near(c), Other(c).id, c.color, Blackened(Far(c)));
    assert Order(w) == Order(Other(c));
    FillLine(Tint(WithOther(c, w), Black), t);
  }

  lemma StraightenedLine<N>(c: Context<N>, t: Tree<N>)
    requires !c.Top? && Other(c).Node? && Near(c).Node?
    ensures Line(Straightened(c), t) == Line(c, t)
  {
    assert Order(Other(Straightened(c))) == Order(Other(c));
  }

  lemma LiftSound<N>(c: Context<N>, t: Tree<N>)
    requires Short(c, t) && !c.Top? && !IsRed(t) && Other(c).Node? && !IsRed(Other(c)) && IsRed(Far(c))
    ensures var r := Plug(c.up, Lifted(c, t)); Short(Top, r) && Line(Top, r) == Line(c, t)
  {
    ShortLifted(c, t);
    LiftedLine(c, t);
    PlugLine(c.up, Lifted(c, t));
    PlugBalanced(c.up, Lifted(c, t));
  }

  lemma BlackSiblingPassSound<N>(c: Context<N>, t: Tree<N>)
    requires Short(c, t) && !c.Top? && !IsRed(t) && Other(c).Node? && !IsRed(Other(c))
    ensures var (c', t', k) := BlackSiblingPass(c, t);
      && Short(c', t') && Line(c', t') == Line(c, t) && k <= 2
      && (if k == 0 then c' == c.up && (IsRed(t') <==> c.color.Red?) else c'.Top?)
  {
    if !IsRed(Near(c)) && !IsRed(Far(c)) {
      ShortReddened(c, t);
      DeleteLines(c, t);
    } else if !IsRed(Far(c)) {
      ShortStraightened(c, t);
      StraightenedLine(c, t);
      LiftSound(Straightened(c), t);
    } else {
      LiftSound(c, t);
    }
  }

  lemma DeletePassNode<N>(c: Context<N>, t: Tree<N>)
    requires !c.Top? && Other(c).Node? && (IsRed(Other(c)) ==> Near(c).Node?)
    ensures DeletePass(c, t).1.Node?
  {
    var d := if IsRed(Other(c)) then SiblingSpun(c) else c;
    if IsRed(Near(d)) || IsRed(Far(d)) {
      var e := if IsRed(Far(d)) then d else Straightened(d);
      PlugNode(e.up, Lifted(e, t));
    }
  }

  /** Invariant of the deletion loop: once it has rotated, it is about to end. */
  ghost predicate DeleteLoop<N>(c: Context<N>, t: Tree<N>, line: seq<N>, rotations: nat) {
    Short(c, t) && Line(c, t) == line && rotations <= 3 && (rotations > 0 ==> c.Top? || IsRed(t))
  }

  function DeleteRank<N>(c: Context<N>, t: Tree<N>): nat {
    if c.Top? || IsRed(t) then 0 else 1 + Depth(c)
  }

  lemma DeletePassSound<N>(c: Context<N>, t: Tree<N>, line: seq<N>, k: nat)
    requires DeleteLoop(c, t, line, k) && !c.Top? && !IsRed(t)
    ensures Other(c).Node? && (IsRed(Other(c)) ==> Near(c).Node?)
    ensures var (c', t', k') := DeletePass(c, t);
      t'.Node? && DeleteLoop(c', t', line, k + k') && DeleteRank(c', t') < DeleteRank(c, t)
  {
    ShortSibling(c, t);
    if IsRed(Other(c)) {
      ShortSpun(c, t);
      DeleteLines(c, t);
      BlackSiblingPassSound(SiblingSpun(c), t);
    } else {
      BlackSiblingPassSound(c, t);
    }
    DeletePassNode(c, t);
  }

  /** At the top, or on a red node, painting the node black finishes the deletion. */
  lemma ShortDone<N>(c: Context<N>, t: Tree<N>)
    requires Short(c, t) && (c.Top? || IsRed(t))
    ensures Balanced(Plug(c, Blackened(t))) && !IsRed(Plug(c, Blackened(t)))
    ensures Order(Plug(c, Blackened(t))) == Line(c, t)
  {
    PlugLine(c, Blackened(t));
    PlugBalanced(c, Blackened(t));
  }

  // ---- entering and leaving a tree

  /** A fresh red leaf may only upset the colours. */
  lemma HotLeaf<N>(c: Context<N>, z: N)
    requires Balanced(Plug(c, Leaf)) && !IsRed(Plug(c, Leaf))
    ensures Hot(c, Node(Leaf, z, Red, Leaf))
    ensures Line(c, Node(Leaf, z, Red, Leaf)) == Before(c) + [z] + After(c)
    ensures Order(Plug(c, Leaf)) == Before(c) + After(c)
  {
    UnplugBalanced(c, Leaf);
    PlugLine(c, Leaf);
    assert Order(Node(Leaf, z, Red, Leaf)) == [z];
    assert Before(c) + [] + After(c) == Before(c) + After(c);
  }

  /** The only child, if any, of a node that is to be spliced out. */
  function OnlyChild<N>(t: Tree<N>): Tree<N>
    requires t.Node? && (t.left.Leaf? || t.right.Leaf?)
  {
    if t.left.Node? then t.left else t.right
  }

  /** Splicing out a red node keeps the balance; splicing out a black one leaves its place short. */
  lemma SpliceBalance<N>(c: Context<N>, t: Tree<N>)
    requires t.Node? && (t.left.Leaf? || t.right.Leaf?)
    requires Balanced(Plug(c, t)) && !IsRed(Plug(c, t))
    ensures t.color.Red? ==> Balanced(Plug(c, OnlyChild(t))) && !IsRed(Plug(c, OnlyChild(t)))
    ensures t.color.Black? ==> Short(c, OnlyChild(t))
  {
    UnplugBalanced(c, t);
    if t.color.Red? {
      PlugBalanced(c, OnlyChild(t));
    }
  }

  /** ... and drops exactly that node from the line. */
  lemma SpliceLine<N>(c: Context<N>, t: Tree<N>)
    requires t.Node? && (t.left.Leaf? || t.right.Leaf?)
    ensures Order(Plug(c, t)) == Before(c) + Order(t.left) + [t.id] + (Order(t.right) + After(c))
    ensures Order(Plug(c, OnlyChild(t))) == Line(c, OnlyChild(t))
    ensures Line(c, OnlyChild(t)) == Before(c) + Order(t.left) + (Order(t.right) + After(c))
  {
    PlugLine(c, t);
    PlugLine(c, OnlyChild(t));
    Regroup(Before(c), Order(t.left), t.id, Order(t.right), After(c));
  }

  // ---- height

  function Size<N>(t: Tree<N>): nat {
    if t.Leaf? then 0 else Size(t.left) + 1 + Size(t.right)
  }

  function Height<N>(t: Tree<N>): nat {
    if t.Leaf? then 0
    else 1 + if Height(t.left) > Height(t.right) then Height(t.left) else Height(t.right)
  }

  lemma {:induction false} DepthHeight<N>(c: Context<N>, t: Tree<N>)
    ensures Depth(c) + Height(t) <= Height(Plug(c, t))
    decreases c
  {
    if !c.Top? {
      DepthHeight(c.up, Fill(c, t));
    }
  }

  function Pow2(n: nat): nat {
    if n == 0 then 1 else 2 * Pow2(n - 1)
  }

  lemma {:induction false} SizeBound<N>(t: Tree<N>)
    requires Balanced(t)
    ensures Pow2(BlackHeight(t)) <= Size(t) + 1
    ensures Height(t) <= 2 * BlackHeight(t) + if IsRed(t) then 1 else 0
  {
    if t.Node? {
      SizeBound(t.left);
      SizeBound(t.right);
    }
  }

  lemma {:induction false} SizeOrder<N>(t: Tree<N>)
    ensures Size(t) == |Order(t)|
  {
    if t.Node? {
      SizeOrder(t.left);
      SizeOrder(t.right);
    }
  }

  lemma {:induction false} Pow2Monotone(a: nat, b: nat)
    requires a <= b
    ensures Pow2(a) <= Pow2(b)
  {
    if a < b {
      Pow2Monotone(a, b - 1);
    }
  }

  lemma {:induction false} Pow2Double(n: nat)
    ensures Pow2(2 * n) == Pow2(n) * Pow2(n)
  {
    if n > 0 {
      Pow2Double(n - 1);
      assert Pow2(2 * n) == 2 * Pow2(2 * n - 1) == 4 * Pow2(2 * (n - 1));
    }
  }

  lemma SquareMonotone(b: nat, n: nat)
    requires b <= n
    ensures b * b <= n * n
  {
    assert b * b <= b * n <= n * n;
  }

  /** Height at most 2 log2(n + 1), written without logarithms. */
  lemma HeightBound<N>(t: Tree<N>)
    requires Balanced(t) && !IsRed(t)
    ensures Pow2(Height(t)) <= (|Order(t)| + 1) * (|Order(t)| + 1)
  {
    var b, n := Pow2(BlackHeight(t)), |Order(t)| + 1;
    SizeBound(t);
    SizeOrder(t);
    Pow2Monotone(Height(t), 2 * BlackHeight(t));
    Pow2Double(BlackHeight(t));
    SquareMonotone(b, n);
  }
}
