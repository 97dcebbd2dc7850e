/** Slicing trees as linked nodes, each owning its curve, and their construction with an array stack
    (shape.c, tree_node_t and tree_node_stack_t). */
module TreeNodes {
  import opened PolishExpression
  import opened PolishExpressionState
  import opened ShapeCurve
  import opened SlicingTree
  import opened TreeParsing

  class TreeNode {
    const curve: Shape
    /** the unit of a leaf, the (negative) cut of an inner node */
    const tag: int
    const left: TreeNode?
    const right: TreeNode?
    /** The arrays of this node's curve and of all curves below it. */
    ghost const Repr: set<object>
    ghost const height: nat

    /** Every node owns its curve: no two curves of the tree share an array. */
    ghost predicate Valid()
      decreases height
    {
      && curve.Valid()
      && (tag >= 0 ==> left == null && right == null && Repr == curve.Footprint)
      && (tag < 0 ==>
            && left != null && right != null && curve.isSum
            && left.height < height && right.height < height
            && left.Valid() && right.Valid()
            && Repr == curve.Footprint + left.Repr + right.Repr
            && curve.Footprint !! left.Repr && curve.Footprint !! right.Repr && left.Repr !! right.Repr)
    }

    /** The tree value this node stands for. */
    ghost function Abs(): (t: Tree)
      requires Valid()
      reads Repr
      ensures t.curve == curve.View()
      ensures if tag >= 0 then t.Leaf? && t.unit == tag else t.Cut? && t.cut == tag
      decreases height
    {
      if tag >= 0 then Tree.Leaf(tag, curve.View())
      else Tree.Cut(tag, curve.View(), left.Abs(), right.Abs())
    }

    constructor Leaf(c: Shape, unit: int)
      requires c.Valid() && unit >= 0
      ensures Valid() && curve == c && tag == unit && Repr == c.Footprint
    {
      curve, tag, left, right := c, unit, null, null;
      Repr, height := c.Footprint, 0;
    }

    constructor Cut(c: Shape, cut: int, l: TreeNode, r: TreeNode)
      requires c.Valid() && c.isSum && cut < 0 && l.Valid() && r.Valid()
      requires c.Footprint !! l.Repr && c.Footprint !! r.Repr && l.Repr !! r.Repr
      ensures Valid() && curve == c && tag == cut && left == l && right == r
      ensures Repr == c.Footprint + l.Repr + r.Repr
    {
      curve, tag, left, right := c, cut, l, r;
      Repr, height := c.Footprint + l.Repr + r.Repr, l.height + r.height + 1;
    }
  }

  class NodeStack {
    const slots: array<TreeNode?>
    /** first free location */
    var top: int

    ghost predicate Valid()
      reads this, slots
    {
      && slots.Length == MAX_STACK
      && 0 <= top <= MAX_STACK
      && forall i :: 0 <= i < top ==> slots[i] != null
    }

    ghost function Nodes(): (s: seq<TreeNode>)
      requires Valid()
      reads this, slots
      ensures |s| == top
      ensures forall i :: 0 <= i < top ==> s[i] == slots[i]
    {
      seq(top, i requires 0 <= i < top reads this, slots requires Valid() => slots[i])
    }

    constructor ()
      ensures Valid() && top == 0 && fresh(slots)
    {
      slots := new TreeNode?[MAX_STACK](_ => null);
      top := 0;
    }

    method Push(node: TreeNode) returns (ok: bool)
      requires Valid()
      modifies `top, slots
      ensures Valid() && ok == (old(top) < MAX_STACK)
      ensures Nodes() == if ok then old(Nodes()) + [node] else old(Nodes())
    {
      if top >= MAX_STACK {
        return false;
      }
      slots[top] := node;
      top := top + 1;
      return true;
    }

    method Pop() returns (node: TreeNode?)
      requires Valid()
      modifies `top
      ensures Valid()
      ensures if old(top) > 0 then
                node == old(Nodes())[old(top) - 1] && Nodes() == old(Nodes())[..old(top) - 1]
              else node == null && Nodes() == old(Nodes())
    {
      if top <= 0 {
        return null;
      }
      top := top - 1;
      node := slots[top];
    }
  }

  /** The nodes on the stack are trees that own disjoint sets of arrays. */
  ghost predicate Owned(nodes: seq<TreeNode>) {
    && (forall i :: 0 <= i < |nodes| ==> nodes[i].Valid())
    && (forall i, j :: 0 <= i < j < |nodes| ==> nodes[i].Repr !! nodes[j].Repr)
  }

  ghost function AllRepr(nodes: seq<TreeNode>): set<object> {
    set i, o | 0 <= i < |nodes| && o in nodes[i].Repr :: o
  }

  ghost function AbsAll(nodes: seq<TreeNode>): (s: seq<Tree>)
    requires Owned(nodes)
    reads AllRepr(nodes)
    ensures |s| == |nodes|
  {
    seq(|nodes|, i requires 0 <= i < |nodes| && Owned(nodes) reads AllRepr(nodes) => nodes[i].Abs())
  }

  ghost predicate ShapesValid(shapes: seq<Shape>) {
    forall i :: 0 <= i < |shapes| ==> shapes[i].Valid()
  }

  ghost function ShapeRepr(shapes: seq<Shape>): set<object> {
    set i, o | 0 <= i < |shapes| && o in shapes[i].Footprint :: o
  }

  /** The curves of the floorplan description. */
  ghost function CurvesOf(shapes: seq<Shape>): (c: seq<Curve>)
    requires ShapesValid(shapes)
    reads ShapeRepr(shapes)
    ensures |c| == |shapes|
    ensures forall i :: 0 <= i < |shapes| ==> c[i] == shapes[i].View()
  {
    seq(|shapes|, i requires 0 <= i < |shapes| && ShapesValid(shapes) reads ShapeRepr(shapes) => shapes[i].View())
  }

  /** The stack holds disjointly owned trees, and its own storage is none of theirs. */
  ghost predicate StackOwns(stack: NodeStack)
    reads stack, stack.slots
  {
    && stack.Valid()
    && Owned(stack.Nodes())
    && forall i :: 0 <= i < stack.top ==> stack !in stack.Nodes()[i].Repr && stack.slots !in stack.Nodes()[i].Repr
  }

  ghost function StackAbs(stack: NodeStack): (s: seq<Tree>)
    requires StackOwns(stack)
    reads stack, stack.slots, AllRepr(stack.Nodes())
    ensures |s| == stack.top
  {
    AbsAll(stack.Nodes())
  }

  datatype BuildStatus = Built | StackOverflow | StackUnderflow | StackNotEmpty

  lemma OwnedPush(nodes: seq<TreeNode>, node: TreeNode)
    requires Owned(nodes) && node.Valid()
    requires forall i :: 0 <= i < |nodes| ==> nodes[i].Repr !! node.Repr
    ensures Owned(nodes + [node])
  {
    hide TreeNode.Valid;
  }

  lemma OwnedTops(nodes: seq<TreeNode>)
    requires Owned(nodes)
    ensures forall i :: 0 <= i < |nodes| ==> nodes[i].Valid()
    ensures |nodes| >= 2 ==> nodes[|nodes| - 2].Repr !! nodes[|nodes| - 1].Repr
  {
    hide TreeNode.Valid;
  }

  /** Push a tree that owns its arrays alone. */
  method PushOwned(stack: NodeStack, node: TreeNode) returns (ok: bool)
    requires StackOwns(stack) && node.Valid() && stack !in node.Repr && stack.slots !in node.Repr
    requires forall i :: 0 <= i < stack.top ==> stack.Nodes()[i].Repr !! node.Repr
    modifies stack`top, stack.slots
    ensures stack.Valid() && ok == (old(stack.top) < MAX_STACK)
    ensures ok ==>
      && StackOwns(stack)
      && stack.Nodes() == old(stack.Nodes()) + [node]
      && StackAbs(stack) == old(StackAbs(stack)) + [old(node.Abs())]
  {
    hide TreeNode.Abs;
    hide TreeNode.Valid;
    hide Owned;
    ghost var nodes, trees := stack.Nodes(), StackAbs(stack);
    OwnedTops(nodes);
    OwnedPush(nodes, node);
    ok := stack.Push(node);
    assert forall i :: 0 <= i < |nodes| ==> nodes[i].Abs() == trees[i];
  }

  /** Pop the top two trees, right one first. */
  method PopTwo(stack: NodeStack) returns (left: TreeNode?, right: TreeNode?)
    requires StackOwns(stack)
    modifies stack`top
    ensures stack.Valid()
    ensures left != null <==> old(stack.top) >= 2
    ensures left != null ==>
      var nodes, trees, n := old(stack.Nodes()), old(StackAbs(stack)), old(stack.top);
      && right != null && left.Valid() && right.Valid()
      && left == nodes[n - 2] && right == nodes[n - 1]
      && left.Abs() == trees[n - 2] && right.Abs() == trees[n - 1]
      && StackOwns(stack) && stack.Nodes() == nodes[..n - 2] && StackAbs(stack) == trees[..n - 2]
  {
    hide TreeNode.Abs;
    hide TreeNode.Valid;
    ghost var nodes, trees := stack.Nodes(), StackAbs(stack);
    right := stack.Pop();
    if right == null {
      return null, null;
    }
    left := stack.Pop();
    assert forall i :: 0 <= i < |nodes| ==> nodes[i].Abs() == trees[i];
  }

  method NewLeaf(shape: Shape, unit: int) returns (node: TreeNode)
    requires shape.Valid() && unit >= 0
    ensures node.Valid() && fresh(node.Repr) && node.Abs() == Tree.Leaf(unit, shape.View())
  {
    var copy := shape.Duplicate();
    node := new TreeNode.Leaf(copy, unit);
  }

  /** A new cut node with a new summed curve; the children keep their curves. */
  method Join(left: TreeNode, right: TreeNode, cut: int) returns (node: TreeNode)
    requires cut < 0 && left.Valid() && right.Valid() && left.Repr !! right.Repr
    ensures node.Valid()
    ensures node.Repr >= left.Repr + right.Repr && fresh(node.Repr - left.Repr - right.Repr)
    ensures node.Abs() == Tree.Cut(cut, AddCurves(left.Abs().curve, right.Abs().curve, cut), left.Abs(), right.Abs())
  {
    hide AddCurves;
    var curve := Shape.Add(left.curve, right.curve, cut);
    node := new TreeNode.Cut(curve, cut, left, right);
  }

  /** Push a new leaf carrying a copy of the described curve. */
  method ReadUnit(shape: Shape, stack: NodeStack, unit: int) returns (node: TreeNode, ok: bool)
    requires shape.Valid() && unit >= 0 && StackOwns(stack)
    modifies stack`top, stack.slots
    ensures stack.Valid()
    ensures ok == (old(stack.top) < MAX_STACK)
    ensures ok ==>
      && StackOwns(stack) && fresh(node.Repr)
      && stack.Nodes() == old(stack.Nodes()) + [node]
      && StackAbs(stack) == old(StackAbs(stack)) + [Tree.Leaf(unit, old(shape.View()))]
  {
    hide TreeNode.Abs;
    hide TreeNode.Valid;
    hide Owned;
    ghost var nodes, trees := stack.Nodes(), StackAbs(stack);
    OwnedTops(nodes);
    node := NewLeaf(shape, unit);
    assert forall i :: 0 <= i < |nodes| ==> nodes[i].Abs() == trees[i];
    assert StackAbs(stack) == trees;
    ok := PushOwned(stack, node);
  }

  /** Join leaves the trees on the stack alone. */
  method JoinBeside(ghost stack: NodeStack, left: TreeNode, right: TreeNode, cut: int) returns (node: TreeNode)
    requires StackOwns(stack)
    requires cut < 0 && left.Valid() && right.Valid() && left.Repr !! right.Repr
    ensures node.Valid()
    ensures node.Repr >= left.Repr + right.Repr && fresh(node.Repr - left.Repr - right.Repr)
    ensures node.Abs() == Tree.Cut(cut, AddCurves(left.Abs().curve, right.Abs().curve, cut), left.Abs(), right.Abs())
    ensures StackOwns(stack) && StackAbs(stack) == old(StackAbs(stack))
  {
    hide AddCurves;
    hide TreeNode.Abs;
    hide TreeNode.Valid;
    hide Owned;
    ghost var nodes, trees := stack.Nodes(), StackAbs(stack);
    OwnedTops(nodes);
    node := Join(left, right, cut);
    assert forall i :: 0 <= i < |nodes| ==> nodes[i].Abs() == trees[i];
    assert StackAbs(stack) == trees;
  }

  /** Pop two nodes and push their cut. */
  method ReadCut(stack: NodeStack, cut: int) returns (node: TreeNode?, ok: bool)
    requires cut < 0 && StackOwns(stack)
    modifies stack`top, stack.slots
    ensures stack.Valid()
    ensures ok == (old(stack.top) >= 2)
    ensures ok ==>
      var nodes, trees := old(stack.Nodes()), old(StackAbs(stack));
      var n := |nodes|;
      && node != null && StackOwns(stack)
      && stack.Nodes() == nodes[..n - 2] + [node]
      && fresh(node.Repr - nodes[n - 2].Repr - nodes[n - 1].Repr)
      && StackAbs(stack) == trees[..n - 2]
           + [Tree.Cut(cut, AddCurves(trees[n - 2].curve, trees[n - 1].curve, cut), trees[n - 2], trees[n - 1])]
  {
    hide AddCurves;
    hide TreeNode.Abs;
    hide TreeNode.Valid;
    hide Owned;
    hide AbsAll;
    ghost var nodes := stack.Nodes();
    OwnedApart(nodes);
    var left, right := PopTwo(stack);
    if left == null {
      return null, false;
    }
    node := JoinBeside(stack, left, right, cut);
    ok := PushOwned(stack, node);
  }

  lemma OwnedApart(nodes: seq<TreeNode>)
    requires Owned(nodes)
    ensures forall i, j :: 0 <= i < j < |nodes| ==> nodes[i].Repr !! nodes[j].Repr
  {
    hide TreeNode.Valid;
  }

  /** One element of the expression, on the stack of owned trees: it does what Step does on values. */
  method ReadElement(shapes: seq<Shape>, stack: NodeStack, e: int) returns (node: TreeNode?, status: BuildStatus)
    requires ShapesValid(shapes) && e < |shapes| && StackOwns(stack)
    requires stack !in ShapeRepr(shapes) && stack.slots !in ShapeRepr(shapes)
    modifies stack`top, stack.slots
    ensures stack.Valid()
    ensures status == match Step(old(CurvesOf(shapes)), old(StackAbs(stack)), e)
                      case Stack(_) => Built
                      case Overflow => StackOverflow
                      case Underflow => StackUnderflow
    ensures status == Built ==>
      && StackOwns(stack) && stack.top >= 1 && node == stack.Nodes()[stack.top - 1]
      && StackAbs(stack) == Step(old(CurvesOf(shapes)), old(StackAbs(stack)), e).nodes
      && forall i :: 0 <= i < stack.top ==> fresh(stack.Nodes()[i].Repr - old(AllRepr(stack.Nodes())))
  {
    hide AddCurves;
    hide TreeNode.Abs;
    hide TreeNode.Valid;
    hide Owned;
    hide StackOwns;
    hide StackAbs;
    var ok;
    if e >= 0 {
      node, ok := ReadUnit(shapes[e], stack, e);
      status := if ok then Built else StackOverflow;
    } else {
      node, ok := ReadCut(stack, e);
      status := if ok then Built else StackUnderflow;
    }
  }

  /** tree_from_NPE. The result owns new arrays only, so the described curves stay as they are. */
  method TreeFromNPE(shapes: seq<Shape>, stack: NodeStack, expr: NPE)
    returns (root: TreeNode?, status: BuildStatus)
    requires ShapesValid(shapes) && stack.Valid() && expr.Separate() && UnitsKnown(CurvesOf(shapes), expr.Word())
    requires stack !in ShapeRepr(shapes) && stack.slots !in ShapeRepr(shapes)
    modifies stack`top, stack.slots
    ensures stack.Valid()
    ensures old(stack.top) != 0 <==> status == StackNotEmpty
    ensures status != StackNotEmpty ==>
      var r := Run(CurvesOf(shapes), expr.Word(), expr.size);
      && (status == Built <==> r.Stack?)
      && (status == Built ==>
            && stack.top == 0
            && root != null && root.Valid() && fresh(root.Repr)
            && root.Abs() == r.nodes[|r.nodes| - 1])
  {
    hide AddCurves;
    hide Run;
    hide Step;
    hide TreeNode.Abs;
    hide TreeNode.Valid;
    if stack.top > 0 {
      return null, StackNotEmpty;
    }
    ghost var curves, s := CurvesOf(shapes), expr.Word();
    RunOfNothing(curves, s);
    root := null;
    var i := 0;
    while i < expr.size
      invariant 0 <= i <= expr.size
      invariant stack.Valid() && CurvesOf(shapes) == curves && expr.Word() == s
      invariant StackOwns(stack)
      invariant forall k :: 0 <= k < stack.top ==> fresh(stack.Nodes()[k].Repr)
      invariant Run(curves, s, i) == Stack(StackAbs(stack))
      invariant i > 0 ==> stack.top >= 1 && root == stack.Nodes()[stack.top - 1]
    {
      RunUnfolds(curves, s, i);
      root, status := ReadElement(shapes, stack, expr.elements[i]);
      if status != Built {
        RunStaysFailed(curves, s, i + 1, expr.size);
        return root, status;
      }
      i := i + 1;
    }
    stack.top := 0;
    status := Built;
  }

  lemma {:induction false} RunStaysFailed(curves: seq<Curve>, s: seq<int>, j: nat, k: nat)
    requires j <= k <= |s| && UnitsKnown(curves, s) && !Run(curves, s, j).Stack?
    ensures Run(curves, s, k) == Run(curves, s, j)
  {
    if j < k {
      RunStaysFailed(curves, s, j, k - 1);
    }
  }
}
