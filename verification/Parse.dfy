/** From words to slicing trees and back: the stack evaluation of tree_from_NPE on values, and what it
    has to do with post-order (shape.c). */
module TreeParsing {
  import opened PolishExpression
  import opened ShapeCurve
  import opened SlicingTree

  const MAX_STACK: nat := 128

  datatype StackResult = Stack(nodes: seq<Tree>) | Overflow | Underflow

  /** Push a leaf, or pop two nodes and push their cut. */
  function Step(curves: seq<Curve>, nodes: seq<Tree>, e: int): StackResult
    requires e < |curves|
  {
    if e >= 0 then
      if |nodes| >= MAX_STACK then Overflow else Stack(nodes + [Leaf(e, curves[e])])
    else if |nodes| < 2 then Underflow
    else
      var n := |nodes|;
      var l, r := nodes[n - 2], nodes[n - 1];
      Stack(nodes[..n - 2] + [Cut(e, AddCurves(l.curve, r.curve, e), l, r)])
  }

  ghost predicate UnitsKnown(curves: seq<Curve>, s: seq<int>) {
    forall i :: 0 <= i < |s| ==> s[i] < |curves|
  }

  /** The stack after the first k elements; a failed step aborts. */
  function Run(curves: seq<Curve>, s: seq<int>, k: nat): StackResult
    requires k <= |s| && UnitsKnown(curves, s)
  {
    if k == 0 then Stack([])
    else
      var before := Run(curves, s, k - 1);
      if before.Stack? then Step(curves, before.nodes, s[k - 1]) else before
  }

  lemma RunUnfolds(curves: seq<Curve>, s: seq<int>, k: nat)
    requires k < |s| && UnitsKnown(curves, s)
    ensures Run(curves, s, k + 1)
         == var before := Run(curves, s, k);
            if before.Stack? then Step(curves, before.nodes, s[k]) else before
  {
  }

  lemma RunOfNothing(curves: seq<Curve>, s: seq<int>)
    requires UnitsKnown(curves, s)
    ensures Run(curves, s, 0) == Stack([])
  {
  }

  // ---------------------------------------------------------------- when the evaluation succeeds

  /** The stack height after k elements, if no step has failed. */
  function HeightAfter(s: seq<int>, k: nat): int
    requires k <= |s|
  {
    k - 2 * CutsIn(s, k)
  }

  lemma StepSucceeds(curves: seq<Curve>, nodes: seq<Tree>, e: int)
    requires e < |curves|
    ensures Step(curves, nodes, e).Stack? <==> if e >= 0 then |nodes| < MAX_STACK else |nodes| >= 2
    ensures Step(curves, nodes, e).Stack? ==>
      |Step(curves, nodes, e).nodes| == |nodes| + (if e >= 0 then 1 else -1)
  {
    hide AddCurves;
  }

  /** The first k steps succeed exactly when every non-empty prefix leaves between 1 and MAX_STACK nodes. */
  lemma {:induction false} RunSucceeds(curves: seq<Curve>, s: seq<int>, k: nat)
    requires k <= |s| && UnitsKnown(curves, s)
    ensures Run(curves, s, k).Stack?
       <==> (forall j :: 1 <= j <= k ==> 1 <= HeightAfter(s, j) <= MAX_STACK)
    ensures Run(curves, s, k).Stack? ==> |Run(curves, s, k).nodes| == HeightAfter(s, k)
  {
    hide Run;
    hide Step;
    if k == 0 {
      RunOfNothing(curves, s);
    } else {
      RunSucceeds(curves, s, k - 1);
      RunUnfolds(curves, s, k - 1);
      if Run(curves, s, k - 1).Stack? {
        StepSucceeds(curves, Run(curves, s, k - 1).nodes, s[k - 1]);
        assert k > 1 ==> 1 <= HeightAfter(s, k - 1) <= MAX_STACK;
        assert HeightAfter(s, k) == HeightAfter(s, k - 1) + (if s[k - 1] < 0 then -1 else 1);
      }
    }
  }

  /** No expression over at most MAX_STACK units overflows or underflows the stack, and one node remains. */
  lemma ExpressionsParse(curves: seq<Curve>, s: seq<int>, n: nat)
    requires IsExpression(s, n) && n <= MAX_STACK && n == |curves|
    ensures UnitsKnown(curves, s)
    ensures Run(curves, s, |s|).Stack? && |Run(curves, s, |s|).nodes| == 1
  {
    forall j | 1 <= j <= |s| ensures 1 <= HeightAfter(s, j) <= MAX_STACK {
      CutsInMonotone(s, j, |s|);
    }
    RunSucceeds(curves, s, |s|);
  }

  // ---------------------------------------------------------------- the round trip

  function Postorder(t: Tree): (s: seq<int>)
    ensures |s| >= 1
  {
    match t
    case Leaf(u, _) => [u]
    case Cut(c, _, l, r) => Postorder(l) + Postorder(r) + [c]
  }

  /** The words of the trees on a stack, one after another. */
  function PostorderAll(nodes: seq<Tree>): seq<int> {
    if nodes == [] then [] else PostorderAll(nodes[..|nodes| - 1]) + Postorder(nodes[|nodes| - 1])
  }

  /** The tree's labels are right: leaves carry the described curves, cuts are negative and summed. */
  ghost predicate Described(t: Tree, curves: seq<Curve>) {
    match t
    case Leaf(u, curve) => 0 <= u < |curves| && curve == curves[u]
    case Cut(c, curve, l, r) =>
      && c < 0 && Described(l, curves) && Described(r, curves)
      && curve == AddCurves(l.curve, r.curve, c)
  }

  ghost predicate AllDescribed(nodes: seq<Tree>, curves: seq<Curve>) {
    forall i :: 0 <= i < |nodes| ==> Described(nodes[i], curves)
  }

  lemma PostorderAllPush(nodes: seq<Tree>, t: Tree)
    ensures PostorderAll(nodes + [t]) == PostorderAll(nodes) + Postorder(t)
  {
    assert (nodes + [t])[..|nodes|] == nodes;
  }

  lemma PostorderOfCut(e: int, curve: Curve, l: Tree, r: Tree)
    ensures Postorder(Cut(e, curve, l, r)) == Postorder(l) + Postorder(r) + [e]
  {
  }

  lemma CutSpells(nodes: seq<Tree>, e: int, curve: Curve)
    requires |nodes| >= 2
    ensures var n := |nodes|;
            PostorderAll(nodes[..n - 2] + [Cut(e, curve, nodes[n - 2], nodes[n - 1])]) == PostorderAll(nodes) + [e]
  {
    hide PostorderAll;
    hide Postorder;
    var n := |nodes|;
    var base, l, r := nodes[..n - 2], nodes[n - 2], nodes[n - 1];
    assert nodes == base + [l] + [r];
    PostorderOfCut(e, curve, l, r);
    PostorderAllPush(base, Cut(e, curve, l, r));
    PostorderAllPush(base + [l], r);
    PostorderAllPush(base, l);
  }

  lemma StepSpellsElement(curves: seq<Curve>, nodes: seq<Tree>, e: int)
    requires e < |curves| && AllDescribed(nodes, curves) && Step(curves, nodes, e).Stack?
    ensures PostorderAll(Step(curves, nodes, e).nodes) == PostorderAll(nodes) + [e]
    ensures AllDescribed(Step(curves, nodes, e).nodes, curves)
  {
    hide AddCurves;
    hide PostorderAll;
    if e >= 0 {
      PostorderAllPush(nodes, Leaf(e, curves[e]));
    } else {
      var n := |nodes|;
      CutSpells(nodes, e, AddCurves(nodes[n - 2].curve, nodes[n - 1].curve, e));
    }
  }

  /** The stack always spells out exactly the elements read so far. */
  lemma {:induction false} RunSpellsInput(curves: seq<Curve>, s: seq<int>, k: nat)
    requires k <= |s| && UnitsKnown(curves, s) && Run(curves, s, k).Stack?
    ensures PostorderAll(Run(curves, s, k).nodes) == s[..k]
    ensures AllDescribed(Run(curves, s, k).nodes, curves)
  {
    hide Run;
    hide Step;
    hide Described;
    if k == 0 {
      RunOfNothing(curves, s);
    } else {
      RunUnfolds(curves, s, k - 1);
      RunSpellsInput(curves, s, k - 1);
      StepSpellsElement(curves, Run(curves, s, k - 1).nodes, s[k - 1]);
      assert s[..k] == s[..k - 1] + [s[k - 1]];
    }
  }

  /** Printing what was parsed gives the word back. */
  lemma PrintOfParse(curves: seq<Curve>, s: seq<int>)
    requires UnitsKnown(curves, s) && Run(curves, s, |s|).Stack? && |Run(curves, s, |s|).nodes| == 1
    ensures Postorder(Run(curves, s, |s|).nodes[0]) == s
    ensures Described(Run(curves, s, |s|).nodes[0], curves)
  {
    hide Run;
    hide Described;
    RunSpellsInput(curves, s, |s|);
    var nodes := Run(curves, s, |s|).nodes;
    assert nodes[..0] == [];
    assert PostorderAll(nodes[..0]) == [];
    assert s[..|s|] == s;
  }

  /** The extra stack room needed to evaluate a tree's word. */
  function StackNeed(t: Tree): nat {
    match t
    case Leaf(_, _) => 1
    case Cut(_, _, l, r) => if StackNeed(l) > StackNeed(r) + 1 then StackNeed(l) else StackNeed(r) + 1
  }

  lemma {:induction false} DescribedUnitsKnown(t: Tree, curves: seq<Curve>)
    requires Described(t, curves)
    ensures UnitsKnown(curves, Postorder(t))
  {
    match t
    case Leaf(_, _) =>
    case Cut(c, _, l, r) =>
      DescribedUnitsKnown(l, curves);
      DescribedUnitsKnown(r, curves);
  }

  lemma LeafParts(t: Tree, curves: seq<Curve>)
    requires t.Leaf? && Described(t, curves)
    ensures 0 <= t.unit < |curves| && t.curve == curves[t.unit]
    ensures Postorder(t) == [t.unit] && StackNeed(t) == 1
  {
  }

  lemma CutParts(t: Tree, curves: seq<Curve>)
    requires t.Cut? && Described(t, curves)
    ensures t.cut < 0 && Described(t.left, curves) && Described(t.right, curves)
    ensures t.curve == AddCurves(t.left.curve, t.right.curve, t.cut)
    ensures Postorder(t) == Postorder(t.left) + Postorder(t.right) + [t.cut]
    ensures StackNeed(t) >= StackNeed(t.left) && StackNeed(t) >= StackNeed(t.right) + 1
  {
    hide AddCurves;
  }

  /** Reading a tree's word pushes exactly that tree, whatever is on the stack. */
  lemma {:induction false} RunOfWord(curves: seq<Curve>, s: seq<int>, k: nat, t: Tree)
    requires Described(t, curves) && UnitsKnown(curves, s)
    requires k + |Postorder(t)| <= |s| && s[k..k + |Postorder(t)|] == Postorder(t)
    requires Run(curves, s, k).Stack? && |Run(curves, s, k).nodes| + StackNeed(t) <= MAX_STACK
    ensures Run(curves, s, k + |Postorder(t)|) == Stack(Run(curves, s, k).nodes + [t])
    decreases t
  {
    hide Run;
    hide Step;
    hide AddCurves;
    hide UnitsKnown;
    hide Described;
    hide Postorder;
    hide StackNeed;
    var w, nodes := Postorder(t), Run(curves, s, k).nodes;
    match t
    case Leaf(u, _) =>
      LeafParts(t, curves);
      assert s[k] == s[k..k + |w|][0] == u;
      RunUnfolds(curves, s, k);
      StepOfLeaf(curves, nodes, u);
    case Cut(c, curve, l, r) =>
      CutParts(t, curves);
      var a, b := |Postorder(l)|, |Postorder(r)|;
      SliceOfWord(s, k, Postorder(l), Postorder(r), c);
      RunOfWord(curves, s, k, l);
      RunOfWord(curves, s, k + a, r);
      RunUnfolds(curves, s, k + a + b);
      StepOfCut(curves, nodes, l, r, c);
  }

  lemma SliceOfWord(s: seq<int>, k: nat, p: seq<int>, q: seq<int>, c: int)
    requires k + |p| + |q| + 1 <= |s| && s[k..k + |p| + |q| + 1] == p + q + [c]
    ensures s[k..k + |p|] == p && s[k + |p|..k + |p| + |q|] == q && s[k + |p| + |q|] == c
  {
    var w := s[k..k + |p| + |q| + 1];
    assert forall i :: 0 <= i < |w| ==> w[i] == s[k + i];
    assert s[k..k + |p|] == w[..|p|];
    forall i | 0 <= i < |q| ensures s[k + |p|..k + |p| + |q|][i] == q[i] {
      assert w[|p| + i] == s[k + (|p| + i)] == q[i];
    }
    assert w[|p| + |q|] == s[k + (|p| + |q|)];
  }

  lemma StepOfLeaf(curves: seq<Curve>, nodes: seq<Tree>, u: int)
    requires 0 <= u < |curves| && |nodes| < MAX_STACK
    ensures Step(curves, nodes, u) == Stack(nodes + [Leaf(u, curves[u])])
  {
  }

  lemma StepOfCut(curves: seq<Curve>, nodes: seq<Tree>, l: Tree, r: Tree, c: int)
    requires c < 0
    ensures Step(curves, nodes + [l] + [r], c)
         == Stack(nodes + [Cut(c, AddCurves(l.curve, r.curve, c), l, r)])
  {
    hide AddCurves;
    assert (nodes + [l] + [r])[..|nodes|] == nodes;
  }

  /** Parsing what was printed gives the tree back. */
  lemma ParseOfPrint(curves: seq<Curve>, t: Tree)
    requires Described(t, curves) && StackNeed(t) <= MAX_STACK
    ensures UnitsKnown(curves, Postorder(t))
    ensures Run(curves, Postorder(t), |Postorder(t)|) == Stack([t])
  {
    hide Run;
    hide Described;
    hide UnitsKnown;
    hide StackNeed;
    hide Postorder;
    DescribedUnitsKnown(t, curves);
    var s := Postorder(t);
    assert s[0..0 + |s|] == s;
    RunOfNothing(curves, s);
    RunOfWord(curves, s, 0, t);
  }

  // ---------------------------------------------------------------- normalization

  /** No cut has a right child with the same cut. */
  ghost predicate Skewed(t: Tree) {
    match t
    case Leaf(_, _) => true
    case Cut(c, _, l, r) => Skewed(l) && Skewed(r) && (r.Cut? ==> r.cut != c)
  }

  lemma {:induction false} PostorderEnds(t: Tree, curves: seq<Curve>)
    requires Described(t, curves)
    ensures Postorder(t)[0] >= 0
    ensures Postorder(t)[|Postorder(t)| - 1] == if t.Cut? then t.cut else t.unit
  {
    match t
    case Leaf(_, _) =>
    case Cut(_, _, l, r) => PostorderEnds(l, curves);
  }

  lemma NormalizedConcat(p: seq<int>, q: seq<int>)
    requires |p| > 0 && |q| > 0
    ensures Normalized(p + q)
       <==> Normalized(p) && Normalized(q) && (p[|p| - 1] < 0 && q[0] < 0 ==> p[|p| - 1] != q[0])
  {
    var w := p + q;
    if Normalized(w) {
      forall i | 0 <= i && i + 1 < |p| && p[i] < 0 && p[i + 1] < 0 ensures p[i] != p[i + 1] {
        assert w[i] == p[i] && w[i + 1] == p[i + 1];
      }
      forall i | 0 <= i && i + 1 < |q| && q[i] < 0 && q[i + 1] < 0 ensures q[i] != q[i + 1] {
        assert w[|p| + i] == q[i] && w[|p| + i + 1] == q[i + 1];
      }
      assert w[|p| - 1] == p[|p| - 1] && w[|p| - 1 + 1] == q[0];
    } else {
      var i :| 0 <= i && i + 1 < |w| && w[i] < 0 && w[i + 1] < 0 && w[i] == w[i + 1];
      if i + 1 < |p| {
        assert p[i] == p[i + 1];
      } else if i >= |p| {
        assert q[i - |p|] == q[i - |p| + 1];
      }
    }
  }

  /** A word is normalized exactly when no cut of its tree repeats the cut of its right child. */
  lemma {:induction false} NormalizedIsSkewed(t: Tree, curves: seq<Curve>)
    requires Described(t, curves)
    ensures Normalized(Postorder(t)) <==> Skewed(t)
  {
    match t
    case Leaf(_, _) =>
    case Cut(c, _, l, r) =>
      hide Normalized;
      NormalizedIsSkewed(l, curves);
      NormalizedIsSkewed(r, curves);
      PostorderEnds(l, curves);
      PostorderEnds(r, curves);
      NormalizedConcat(Postorder(l), Postorder(r));
      NormalizedConcat(Postorder(l) + Postorder(r), [c]);
  }
}
