/** recursive_sizing and tree_to_flp on the real structures: the curves of the tree are enlarged in
    place while the recursion descends, and the placements are written into the floorplan's units
    (shape.c). */
module SizingState {
  import opened RealArithmetic
  import opened PolishExpression
  import opened ShapeCurve
  import opened SlicingTree
  import opened TreeNodes
  import opened Sizing

  /** flp_t: block i is unit i; the dead blocks follow the blocks. */
  class Flp {
    const units: array<Rect>
    var nUnits: int

    constructor (n: int)
      requires n >= 0
      ensures units.Length == n && nUnits == n && fresh(units)
    {
      units := new Rect[n](_ => Rect(0.0, 0.0, 0.0, 0.0));
      nUnits := n;
    }

    /** location of the first dead block */
    function Base(): int
      reads this
    {
      (nUnits + 1) / 2
    }
  }

  // ---------------------------------------------------------------- one cut

  function Resized(e: Entry, r: Rect): Entry {
    e.(x := r.width, y := r.height)
  }

  /** Entry i has taken the size of r and nothing else about the curve's sizes has changed. */
  twostate predicate ResizedTo(s: Shape, i: int, r: Rect)
    requires s.Valid() && 0 <= i < s.size
    reads s.x, s.y
  {
    && s.x[..] == old(s.x[..])[i := r.width]
    && s.y[..] == old(s.y[..])[i := r.height]
  }

  /** Stretch both children across the cut until the larger one fills the room. */
  method StretchBoth(a: array<real>, i: int, b: array<real>, j: int, room: real)
    requires a != b && 0 <= i < a.Length && 0 <= j < b.Length
    modifies a, b
    ensures var grow := if room > Max(old(a[i]), old(b[j])) then room - Max(old(a[i]), old(b[j])) else 0.0;
            a[..] == old(a[..])[i := old(a[i]) + grow] && b[..] == old(b[..])[j := old(b[j]) + grow]
  {
    var larger := Max(a[i], b[j]);
    if room > larger {
      a[i] := a[i] + (room - larger);
      b[j] := b[j] + (room - larger);
    }
  }

  /** Stretch the second child along the cut until both together fill the room. */
  method StretchSecond(a: array<real>, i: int, b: array<real>, j: int, room: real)
    requires a != b && 0 <= i < a.Length && 0 <= j < b.Length
    modifies b
    ensures b[..] == old(b[..])[j := if room > a[i] + old(b[j]) then old(b[j]) + (room - (a[i] + old(b[j])))
                                     else old(b[j])]
  {
    if room > a[i] + b[j] {
      b[j] := b[j] + (room - (a[i] + b[j]));
    }
  }

  /** Let the smaller child absorb the dead space beside it when that is small. */
  method Absorb(a: array<real>, i: int, b: array<real>, j: int, compact: bool, ratio: real) returns (counted: bool)
    requires a != b && 0 <= i < a.Length && 0 <= j < b.Length && a[i] > 0.0 && b[j] > 0.0
    modifies a, b
    ensures var h1, h2 := old(a[i]), old(b[j]);
            && counted == !(compact && Abs(h2 - h1) / Min(h1, h2) <= ratio)
            && a[..] == old(a[..])[i := if !counted && h2 >= h1 then h2 else h1]
            && b[..] == old(b[..])[j := if !counted && h2 < h1 then h1 else h2]
  {
    var h1, h2 := a[i], b[j];
    counted := !(compact && Abs(h2 - h1) / Min(h1, h2) <= ratio);
    if !counted {
      if h2 >= h1 {
        a[i] := h2;
      } else {
        b[j] := h1;
      }
    }
  }

  /** The vertical branch of recursive_sizing up to its recursive calls. */
  method DivideBeside(left: Shape, right: Shape, i: int, j: int, box: Rect, median: real,
                      compact: bool, ratio: real, units: array<Rect>, idx: int)
    returns (counted: bool)
    requires left.Valid() && right.Valid() && left.Footprint !! right.Footprint
    requires units !in left.Footprint && units !in right.Footprint
    requires 0 <= i < left.size && 0 <= j < right.size && 0 <= idx < units.Length
    requires left.y[i] > 0.0 && right.y[j] > 0.0
    modifies left.x, left.y, right.x, right.y, units
    ensures var s := SplitBeside(box, old(left.x[i]), old(left.y[i]), old(right.x[j]), old(right.y[j]),
                                 median, compact, ratio);
            && counted == s.counted
            && ResizedTo(left, i, s.first) && ResizedTo(right, j, s.second)
            && units[..] == old(units[..])[idx := s.dead]
  {
    hide Max;
    hide Min;
    hide Abs;
    StretchBoth(left.y, i, right.y, j, box.height);
    StretchSecond(left.x, i, right.x, j, box.width);
    var x1, x2, y1, y2 := left.x[i], right.x[j], left.y[i], right.y[j];
    units[idx] := Rect(box.leftx + (if y2 >= y1 then 0.0 else x1), box.bottomy + Min(y1, y2),
                       if y2 >= y1 then x1 else x2, Abs(y2 - y1));
    counted := Absorb(left.y, i, right.y, j, compact, ratio);
  }

  /** The horizontal branch of recursive_sizing up to its recursive calls. */
  method DivideStacked(left: Shape, right: Shape, i: int, j: int, box: Rect, median: real,
                       compact: bool, ratio: real, units: array<Rect>, idx: int)
    returns (counted: bool)
    requires left.Valid() && right.Valid() && left.Footprint !! right.Footprint
    requires units !in left.Footprint && units !in right.Footprint
    requires 0 <= i < left.size && 0 <= j < right.size && 0 <= idx < units.Length
    requires left.x[i] > 0.0 && right.x[j] > 0.0
    modifies left.x, left.y, right.x, right.y, units
    ensures var s := SplitStacked(box, old(left.x[i]), old(left.y[i]), old(right.x[j]), old(right.y[j]),
                                  median, compact, ratio);
            && counted == s.counted
            && ResizedTo(left, i, s.first) && ResizedTo(right, j, s.second)
            && units[..] == old(units[..])[idx := s.dead]
  {
    hide Max;
    hide Min;
    hide Abs;
    StretchBoth(left.x, i, right.x, j, box.width);
    StretchSecond(left.y, i, right.y, j, box.height);
    var x1, x2, y1, y2 := left.x[i], right.x[j], left.y[i], right.y[j];
    units[idx] := Rect(box.leftx + Min(x1, x2), box.bottomy + (if x2 >= x1 then 0.0 else y1),
                       Abs(x2 - x1), if x2 >= x1 then y1 else y2);
    counted := Absorb(left.x, i, right.x, j, compact, ratio);
  }

  /** Divide the box of a cut's entry among its children, whichever way the cut runs. */
  method Divide(cut: int, left: Shape, right: Shape, i: int, j: int, box: Rect, median: real,
                compact: bool, ratio: real, units: array<Rect>, idx: int)
    returns (counted: bool)
    requires left.Valid() && right.Valid() && left.Footprint !! right.Footprint
    requires units !in left.Footprint && units !in right.Footprint
    requires 0 <= i < left.size && 0 <= j < right.size && 0 <= idx < units.Length
    requires left.View()[i].x > 0.0 && left.View()[i].y > 0.0
    requires right.View()[j].x > 0.0 && right.View()[j].y > 0.0
    modifies left.x, left.y, right.x, right.y, units
    ensures var s := SplitBox(cut, box, old(left.View()[i]), old(right.View()[j]), median, compact, ratio);
            && counted == s.counted
            && left.View() == old(left.View())[i := Resized(old(left.View())[i], s.first)]
            && right.View() == old(right.View())[j := Resized(old(right.View())[j], s.second)]
            && units[..] == old(units[..])[idx := s.dead]
  {
    hide SplitBeside;
    hide SplitStacked;
    if cut == CUT_VERTICAL {
      counted := DivideBeside(left, right, i, j, box, median, compact, ratio, units, idx);
    } else {
      counted := DivideStacked(left, right, i, j, box, median, compact, ratio, units, idx);
    }
  }

  // ---------------------------------------------------------------- the recursion

  /** The tree with entry pos of its root curve enlarged to the size of the box. */
  ghost function Stretch(t: Tree, pos: int, box: Rect): Tree
    requires 0 <= pos < |t.curve|
  {
    t.(curve := t.curve[pos := Resized(t.curve[pos], box)])
  }

  /** The tree's units are distinct slots below base. */
  ghost predicate DistinctUnits(us: seq<int>, base: int) {
    && (forall k :: 0 <= k < |us| ==> 0 <= us[k] < base)
    && (forall k, k' :: 0 <= k < k' < |us| ==> us[k] != us[k'])
  }

  /** The blocks are in their units' slots and the dead blocks follow one another from base + from. */
  ghost predicate Written(u: seq<Rect>, base: int, from: int, lay: Layout) {
    && (forall k :: 0 <= k < |lay.blocks| ==>
          0 <= lay.blocks[k].unit < |u| && u[lay.blocks[k].unit] == lay.blocks[k].rect)
    && 0 <= base + from <= base + from + |lay.dead| <= |u|
    && u[base + from..base + from + |lay.dead|] == lay.dead
  }

  /** Nothing below base + from has changed except the slots of the given units. */
  ghost predicate Untouched(u: seq<Rect>, u': seq<Rect>, base: int, from: int, us: seq<int>) {
    && |u| == |u'|
    && forall i :: 0 <= i < base + from && i < |u| && i !in us ==> u'[i] == u[i]
  }

  lemma DistinctJoin(us: seq<int>, vs: seq<int>, base: int)
    requires DistinctUnits(us + vs, base)
    ensures DistinctUnits(us, base) && DistinctUnits(vs, base)
    ensures forall k :: 0 <= k < |us| ==> us[k] !in vs
    ensures (forall v :: v in us ==> 0 <= v < base) && (forall v :: v in vs ==> 0 <= v < base)
  {
    var ws := us + vs;
    assert forall k :: 0 <= k < |us| ==> ws[k] == us[k];
    assert forall k :: 0 <= k < |vs| ==> ws[|us| + k] == vs[k];
    forall k | 0 <= k < |us| ensures us[k] !in vs {
      forall k' | 0 <= k' < |vs| ensures vs[k'] != us[k] {
        assert ws[|us| + k'] != ws[k];
      }
    }
  }

  /** What was written before a later part stays written. */
  lemma WrittenStays(u: seq<Rect>, u': seq<Rect>, base: int, from: int, a: Layout, us: seq<int>, vs: seq<int>)
    requires base >= 0 && from >= 0
    requires DistinctUnits(us + vs, base)
    requires LaysOut(a.blocks, us)
    requires Written(u, base, from, a) && Untouched(u, u', base, from + |a.dead|, vs)
    ensures Written(u', base, from, a)
  {
    DistinctJoin(us, vs, base);
    hide DistinctUnits;
    assert u'[base + from..base + from + |a.dead|] == u[base + from..base + from + |a.dead|];
  }

  lemma SliceInThree(u: seq<Rect>, i: int, j: int, k: int, l: int)
    requires 0 <= i <= j <= k <= l <= |u|
    ensures u[i..l] == u[i..j] + u[j..k] + u[k..l]
  {
  }

  lemma WrittenJoin(u0: seq<Rect>, u1: seq<Rect>, u2: seq<Rect>, base: int, from: int, s: Split,
                    a: Layout, b: Layout, us: seq<int>, vs: seq<int>)
    requires base >= 0 && from >= 0 && base + from < |u0|
    requires DistinctUnits(us + vs, base)
    requires LaysOut(a.blocks, us)
    requires LaysOut(b.blocks, vs)
    requires u0[base + from] == s.dead
    requires var d := from + (if s.counted then 1 else 0);
             && Untouched(u0, u1, base, d, us) && Written(u1, base, d, a)
             && Untouched(u1, u2, base, d + |a.dead|, vs) && Written(u2, base, d + |a.dead|, b)
    ensures Written(u2, base, from, Layout(a.blocks + b.blocks, (if s.counted then [s.dead] else []) + a.dead + b.dead))
    ensures Untouched(u0, u2, base, from, us + vs)
  {
    hide DistinctUnits;
    var d := from + (if s.counted then 1 else 0);
    DistinctJoin(us, vs, base);
    WrittenStays(u1, u2, base, d, a, us, vs);
    var at, end := base + d, base + d + |a.dead|;
    var own := if s.counted then [s.dead] else [];
    assert u2[base + from..at] == own by {
      if s.counted {
        assert base + from !in us && base + from !in vs;
        assert u2[base + from] == u0[base + from];
      }
    }
    SliceInThree(u2, base + from, at, end, end + |b.dead|);
  }

  /** What recursive_sizing relies on: below this node the curves are as they were summed, and only entry
      pos of the node's own curve has been enlarged by the caller, to the size of the box. */
  ghost predicate ReadyToSize(node: TreeNode, pos: int, box: Rect, t: Tree)
    reads node.Repr
  {
    && node.Valid() && Summed(t) && LeavesWellShaped(t) && 0 <= pos < |t.curve|
    && node.Abs() == Stretch(t, pos, box)
  }

  lemma NodeParts(node: TreeNode)
    requires node.Valid()
    ensures node.curve.Valid() && node.curve.Footprint <= node.Repr
    ensures node.tag < 0 ==>
      && node.left != null && node.right != null && node.curve.isSum
      && node.left.height < node.height && node.right.height < node.height
      && node.left.Valid() && node.right.Valid()
      && node.Repr == node.curve.Footprint + node.left.Repr + node.right.Repr
      && node.curve.Footprint !! node.left.Repr && node.curve.Footprint !! node.right.Repr
      && node.left.Repr !! node.right.Repr
  {
  }

  lemma ReadyCut(node: TreeNode, pos: int, box: Rect, t: Tree)
    requires ReadyToSize(node, pos, box, t) && node.tag < 0
    ensures t.Cut? && t.cut == node.tag && node.curve.size == |t.curve|
    ensures Summed(t.left) && LeavesWellShaped(t.left) && Summed(t.right) && LeavesWellShaped(t.right)
    ensures node.left.Abs() == t.left && node.right.Abs() == t.right
    ensures node.curve.leftPos[pos] == t.curve[pos].left && node.curve.rightPos[pos] == t.curve[pos].right
    ensures node.curve.median[pos] == t.curve[pos].median
    ensures node.curve.x[pos] == box.width && node.curve.y[pos] == box.height
  {
    assert node.curve.View()[pos] == node.curve.EntryAt(pos);
  }

  lemma ReadyLeaf(node: TreeNode, pos: int, box: Rect, t: Tree)
    requires ReadyToSize(node, pos, box, t) && node.tag >= 0
    ensures t.Leaf? && t.unit == node.tag && node.curve.size == |t.curve|
    ensures node.curve.x[pos] == box.width && node.curve.y[pos] == box.height
  {
    assert node.curve.View()[pos] == node.curve.EntryAt(pos);
  }

  /** Apart from the node's own curve, the node stands for t. */
  ghost predicate BelowMatches(node: TreeNode, t: Tree)
    requires node.Valid()
    reads node.Repr
  {
    if node.tag >= 0 then t.Leaf? && t.unit == node.tag
    else t.Cut? && t.cut == node.tag && node.left.Abs() == t.left && node.right.Abs() == t.right
  }

  lemma AbsMatchesBelow(node: TreeNode)
    requires node.Valid()
    ensures BelowMatches(node, node.Abs())
  {
  }

  /** Enlarging one entry of the node's own curve stretches the tree the node stands for. */
  lemma StretchedAbs(node: TreeNode, t: Tree, i: int, box: Rect)
    requires node.Valid() && BelowMatches(node, t) && 0 <= i < |t.curve|
    requires node.curve.View() == t.curve[i := Resized(t.curve[i], box)]
    ensures node.Abs() == Stretch(t, i, box)
  {
  }

  /** Divide the box among the children's curves; everything else below the node stays as it is. */
  method DivideCurves(node: TreeNode, pos: int, box: Rect, compact: bool, ratio: real, flp: Flp, idx: int, ghost t: Tree)
    returns (counted: bool, i: int, j: int)
    requires ReadyToSize(node, pos, box, t) && node.tag < 0
    requires flp.units !in node.Repr && 0 <= idx < flp.units.Length
    modifies node.left.curve.x, node.left.curve.y, node.right.curve.x, node.right.curve.y, flp.units
    ensures t.Cut? && i == t.curve[pos].left && j == t.curve[pos].right
    ensures 0 <= i < |t.left.curve| == node.left.curve.size && 0 <= j < |t.right.curve| == node.right.curve.size
    ensures var s := SplitAt(t, pos, box, compact, ratio);
            && counted == s.counted
            && node.left.curve.Valid() && node.right.curve.Valid()
            && node.left.curve.View() == t.left.curve[i := Resized(t.left.curve[i], s.first)]
            && node.right.curve.View() == t.right.curve[j := Resized(t.right.curve[j], s.second)]
            && flp.units[..] == old(flp.units[..])[idx := s.dead]
  {
    hide AddCurves;
    hide SplitBox;
    hide WellShaped;
    hide TreeNode.Valid;
    hide TreeNode.Abs;
    NodeParts(node);
    NodeParts(node.left);
    NodeParts(node.right);
    ReadyCut(node, pos, box, t);
    SumIsRealised(t.left.curve, t.right.curve, t.cut, pos);
    ghost var a, b := LeftEntry(t, pos), RightEntry(t, pos);
    i, j := node.curve.leftPos[pos], node.curve.rightPos[pos];
    counted := Divide(node.tag, node.left.curve, node.right.curve, i, j, box, node.curve.median[pos],
                      compact, ratio, flp.units, idx);
  }

  /** Divide the node's box: both children become ready to be sized for their parts. */
  method DivideNode(node: TreeNode, pos: int, box: Rect, compact: bool, ratio: real, flp: Flp, idx: int, ghost t: Tree)
    returns (counted: bool, i: int, j: int)
    requires ReadyToSize(node, pos, box, t) && node.tag < 0
    requires flp.units !in node.Repr && 0 <= idx < flp.units.Length
    modifies node.left.Repr, node.right.Repr, flp.units
    ensures t.Cut? && i == t.curve[pos].left && j == t.curve[pos].right
    ensures var s := SplitAt(t, pos, box, compact, ratio);
            && counted == s.counted
            && ReadyToSize(node.left, i, s.first, t.left)
            && ReadyToSize(node.right, j, s.second, t.right)
            && flp.units[..] == old(flp.units[..])[idx := s.dead]
  {
    hide AddCurves;
    hide SplitAt;
    hide WellShaped;
    hide Summed;
    hide LeavesWellShaped;
    hide Shape.View;
    hide Shape.EntryAt;
    hide Stretch;
    hide Resized;
    hide TreeNode.Valid;
    hide TreeNode.Abs;
    NodeParts(node);
    NodeParts(node.left);
    NodeParts(node.right);
    ReadyCut(node, pos, box, t);
    AbsMatchesBelow(node.left);
    AbsMatchesBelow(node.right);
    counted, i, j := DivideCurves(node, pos, box, compact, ratio, flp, idx, t);
    ghost var s := SplitAt(t, pos, box, compact, ratio);
    StretchedAbs(node.left, t.left, i, s.first);
    StretchedAbs(node.right, t.right, j, s.second);
  }

  lemma SplitOrigins(t: Tree, pos: nat, box: Rect, compact: bool, ratio: real)
    requires t.Cut? && Summed(t) && LeavesWellShaped(t) && pos < |t.curve|
    ensures var s, m := SplitAt(t, pos, box, compact, ratio), t.curve[pos].median;
            && s.first.leftx == box.leftx && s.first.bottomy == box.bottomy
            && (if t.cut == CUT_VERTICAL then s.second.leftx == box.leftx + m && s.second.bottomy == box.bottomy
                else s.second.leftx == box.leftx && s.second.bottomy == box.bottomy + m)
  {
  }

  lemma ArrangeCut(t: Tree, pos: nat, box: Rect, compact: bool, ratio: real)
    requires t.Cut? && Summed(t) && LeavesWellShaped(t) && pos < |t.curve|
    ensures 0 <= t.curve[pos].left < |t.left.curve| && 0 <= t.curve[pos].right < |t.right.curve|
    ensures Units(t) == Units(t.left) + Units(t.right)
    ensures var s := SplitAt(t, pos, box, compact, ratio);
            var a := Arrange(t.left, t.curve[pos].left, s.first, compact, ratio);
            var b := Arrange(t.right, t.curve[pos].right, s.second, compact, ratio);
            Arrange(t, pos, box, compact, ratio)
            == Layout(a.blocks + b.blocks, (if s.counted then [s.dead] else []) + a.dead + b.dead)
  {
    hide SplitAt;
    SumIsRealised(t.left.curve, t.right.curve, t.cut, pos);
  }

  /** recursive_sizing. t is the tree as it was summed, box the bounding rectangle of this node. */
  method RecursiveSizing(node: TreeNode, pos: int, leftx: real, bottomy: real, deadCount: int,
                         compact: bool, ratio: real, flp: Flp, ghost box: Rect, ghost t: Tree)
    returns (dead: int)
    requires ReadyToSize(node, pos, box, t) && box.leftx == leftx && box.bottomy == bottomy
    requires flp.units !in node.Repr && flp !in node.Repr
    requires flp.nUnits >= 0 && DistinctUnits(Units(t), flp.Base())
    requires deadCount >= 0 && flp.Base() + deadCount + |Units(t)| - 1 <= flp.units.Length
    modifies node.Repr, flp.units
    ensures var lay := Arrange(t, pos, box, compact, ratio);
            && dead == deadCount + |lay.dead|
            && Written(flp.units[..], flp.Base(), deadCount, lay)
            && Untouched(old(flp.units[..]), flp.units[..], flp.Base(), deadCount, Units(t))
    decreases node.height
  {
    hide SplitAt;
    hide AddCurves;
    hide Written;
    hide Untouched;
    hide WellShaped;
    hide Arrange;
    hide DistinctUnits;
    hide LaysOut;
    hide ReadyToSize;
    hide TreeNode.Valid;
    hide TreeNode.Abs;
    hide Shape.View;
    hide Shape.EntryAt;
    hide Units;
    hide Summed;
    hide LeavesWellShaped;
    ReadyNode(node, pos, box, t);
    var self := node.curve;
    ghost var base, u0 := flp.Base(), flp.units[..];
    if node.tag >= 0 {
      ReadyLeaf(node, pos, box, t);
      dead := PlaceLeaf(node, pos, leftx, bottomy, deadCount, compact, ratio, flp, box, t);
    } else {
      ReadyCut(node, pos, box, t);
      NodeParts(node);
      ghost var s := SplitAt(t, pos, box, compact, ratio);
      SplitOrigins(t, pos, box, compact, ratio);
      ArrangeCut(t, pos, box, compact, ratio);
      ghost var us, vs := Units(t.left), Units(t.right);
      DistinctJoin(us, vs, base);
      var idx := flp.Base() + deadCount;
      var counted, i, j := DivideNode(node, pos, Rect(leftx, bottomy, self.x[pos], self.y[pos]),
                                      compact, ratio, flp, idx, t);
      ghost var a := Arrange(t.left, i, s.first, compact, ratio);
      ghost var b := Arrange(t.right, j, s.second, compact, ratio);
      ArrangeCounts(t.left, i, s.first, compact, ratio);
      ArrangeCounts(t.right, j, s.second, compact, ratio);
      ghost var w0 := flp.units[..];
      dead := if counted then deadCount + 1 else deadCount;
      dead := RecursiveSizing(node.left, i, leftx, bottomy, dead, compact, ratio, flp, s.first, t.left);
      ghost var u1 := flp.units[..];
      var x2 := if node.tag == CUT_VERTICAL then leftx + self.median[pos] else leftx;
      var y2 := if node.tag == CUT_VERTICAL then bottomy else bottomy + self.median[pos];
      dead := RecursiveSizing(node.right, j, x2, y2, dead, compact, ratio, flp, s.second, t.right);
      WrittenJoin(w0, u1, flp.units[..], base, deadCount, s, a, b, us, vs);
      UntouchedFrom(u0, w0, flp.units[..], base, deadCount, s.dead, us + vs);
    }
  }

  lemma ReadyNode(node: TreeNode, pos: int, box: Rect, t: Tree)
    requires ReadyToSize(node, pos, box, t)
    ensures node.Valid() && Summed(t) && LeavesWellShaped(t) && 0 <= pos < |t.curve|
  {
  }

  /** Writing the dead block's slot touches nothing below it. */
  lemma UntouchedFrom(u0: seq<Rect>, w0: seq<Rect>, u2: seq<Rect>, base: int, from: int, r: Rect, us: seq<int>)
    requires 0 <= base + from < |u0| && w0 == u0[base + from := r]
    requires Untouched(w0, u2, base, from, us)
    ensures Untouched(u0, u2, base, from, us)
  {
  }

  /** The leaf branch of recursive_sizing. */
  method PlaceLeaf(node: TreeNode, pos: int, leftx: real, bottomy: real, deadCount: int,
                   compact: bool, ratio: real, flp: Flp, ghost box: Rect, ghost t: Tree)
    returns (dead: int)
    requires ReadyToSize(node, pos, box, t) && box.leftx == leftx && box.bottomy == bottomy && node.tag >= 0
    requires flp.units !in node.Repr
    requires DistinctUnits(Units(t), flp.Base())
    requires 0 <= deadCount && flp.Base() + deadCount <= flp.units.Length
    modifies flp.units
    ensures var lay := Arrange(t, pos, box, compact, ratio);
            && dead == deadCount + |lay.dead|
            && Written(flp.units[..], flp.Base(), deadCount, lay)
            && Untouched(old(flp.units[..]), flp.units[..], flp.Base(), deadCount, Units(t))
  {
    hide AddCurves;
    hide WellShaped;
    ReadyLeaf(node, pos, box, t);
    assert Units(t) == [node.tag] && 0 <= Units(t)[0] < flp.Base();
    flp.units[node.tag] := Rect(leftx, bottomy, node.curve.x[pos], node.curve.y[pos]);
    dead := deadCount;
  }

  // ---------------------------------------------------------------- the whole floorplan

  /** us lists every slot below n exactly once. */
  ghost predicate ListsAll(us: seq<int>, n: int) {
    DistinctUnits(us, n) && forall v :: 0 <= v < n ==> v in us
  }

  lemma ListsAllButLast(us: seq<int>, n: int, k: int)
    requires ListsAll(us, n) && 0 <= k < |us| && us[k] == n - 1
    ensures ListsAll(us[..k] + us[k + 1..], n - 1)
  {
    var vs := us[..k] + us[k + 1..];
    forall m | 0 <= m < |vs| ensures 0 <= vs[m] < n - 1 {
      var m' := if m < k then m else m + 1;
      assert vs[m] == us[m'] && us[m'] != us[k];
    }
    forall m, m' | 0 <= m < m' < |vs| ensures vs[m] != vs[m'] {
      assert vs[m] == us[if m < k then m else m + 1] && vs[m'] == us[if m' < k then m' else m' + 1];
    }
    forall v | 0 <= v < n - 1 ensures v in vs {
      assert v in us;
      var m :| 0 <= m < |us| && us[m] == v;
      assert vs[if m < k then m else m - 1] == v;
    }
  }

  /** Cover and area do not depend on the order in which the blocks are stored. */
  lemma {:induction false} StoredBlocks(us: seq<int>, rs: seq<Rect>, u: seq<Rect>, n: nat, x: real, y: real)
    requires ListsAll(us, n) && |rs| == |us| == n <= |u|
    requires forall k :: 0 <= k < |us| ==> us[k] < |u| && u[us[k]] == rs[k]
    ensures Cover(u[..n], x, y) == Cover(rs, x, y)
    ensures TotalArea(u[..n]) == TotalArea(rs)
  {
    hide Cover;
    hide TotalArea;
    hide DistinctUnits;
    if n == 0 {
      assert u[..n] == rs;
    } else {
      assert n - 1 in us;
      var k :| 0 <= k < |us| && us[k] == n - 1;
      ListsAllButLast(us, n, k);
      var vs, ss := us[..k] + us[k + 1..], rs[..k] + rs[k + 1..];
      StoredBlocks(vs, ss, u, n - 1, x, y);
      assert u[..n] == u[..n - 1] + [rs[k]];
      assert rs == rs[..k] + ([rs[k]] + rs[k + 1..]);
      CoverConcat(u[..n - 1], [rs[k]], x, y);
      CoverConcat(rs[..k], [rs[k]] + rs[k + 1..], x, y);
      CoverConcat([rs[k]], rs[k + 1..], x, y);
      CoverConcat(rs[..k], rs[k + 1..], x, y);
      AreaConcat(u[..n - 1], [rs[k]]);
      AreaConcat(rs[..k], [rs[k]] + rs[k + 1..]);
      AreaConcat([rs[k]], rs[k + 1..]);
      AreaConcat(rs[..k], rs[k + 1..]);
    }
  }

  /** The rectangles tile the box, and their areas add up to its area. */
  ghost predicate TilesBox(rs: seq<Rect>, box: Rect) {
    Tiling(rs, box) && TotalArea(rs) == RectArea(box)
  }

  /** Every unit's slot is at least as wide and tall as the orientation chosen for the unit. */
  ghost predicate HoldsOrientations(u: seq<Rect>, t: Tree, pos: nat)
    requires Summed(t) && pos < |t.curve|
  {
    forall k :: 0 <= k < |Units(t)| ==> 0 <= Units(t)[k] < |u| && Holds(u[Units(t)[k]], Orientations(t, pos)[k])
  }

  /** What the written slots of a whole tree amount to. */
  lemma WrittenTiles(u: seq<Rect>, n: nat, t: Tree, pos: nat, box: Rect, compact: bool, ratio: real)
    requires Summed(t) && LeavesWellShaped(t) && pos < |t.curve| && Holds(box, t.curve[pos])
    requires ListsAll(Units(t), n) && |Units(t)| == n <= |u|
    requires var lay := Arrange(t, pos, box, compact, ratio);
             Written(u, n, 0, lay) && n + |lay.dead| == |u|
    ensures TilesBox(u, box) && HoldsOrientations(u, t, pos)
    ensures compact && ratio >= 0.0 ==> AllPositive(u)
  {
    hide Arrange;
    hide AddCurves;
    hide Units;
    hide Orientations;
    hide Summed;
    hide LeavesWellShaped;
    var lay, us := Arrange(t, pos, box, compact, ratio), Units(t);
    ArrangeTiles(t, pos, box, compact, ratio);
    ArrangeKeepsArea(t, pos, box, compact, ratio);
    ArrangeCounts(t, pos, box, compact, ratio);
    BlocksHoldOrientations(t, pos, box, compact, ratio);
    var rs := Rects(lay.blocks);
    assert u == u[..n] + lay.dead;
    forall x, y ensures Cover(u, x, y) == Covers(box, x, y) {
      StoredBlocks(us, rs, u, n, x, y);
      CoverConcat(rs, lay.dead, x, y);
      CoverConcat(u[..n], lay.dead, x, y);
    }
    StoredBlocks(us, rs, u, n, 0.0, 0.0);
    AreaConcat(rs, lay.dead);
    AreaConcat(u[..n], lay.dead);
    if compact && ratio >= 0.0 {
      ArrangeIsPositive(t, pos, box, ratio);
      assert forall k :: 0 <= k < |us| ==> Tiles(lay)[k] == u[us[k]];
      forall i | 0 <= i < |u| ensures u[i].width > 0.0 && u[i].height > 0.0 {
        if i < n {
          assert i in us;
        } else {
          assert u[i] == lay.dead[i - n] == Tiles(lay)[|us| + (i - n)];
        }
      }
    }
  }

  /** tree_to_flp: size the tree for its entry of least area and keep the counted dead blocks. Returns how
      many dead blocks were compacted away. */
  method TreeToFlp(root: TreeNode, flp: Flp, compact: bool, ratio: real)
    returns (compacted: int, ghost pos: nat)
    requires root.Valid() && Summed(root.Abs()) && LeavesWellShaped(root.Abs())
    requires flp.units !in root.Repr && flp !in root.Repr
    requires flp.nUnits == 2 * |Units(root.Abs())| - 1 <= flp.units.Length
    requires ListsAll(Units(root.Abs()), |Units(root.Abs())|)
    modifies root.Repr, flp.units, flp`nUnits
    ensures IsFirstMin(old(root.Abs()).curve, pos) && pos < |old(root.Abs()).curve|
    ensures var t := old(root.Abs());
            var n := |Units(t)|;
            var box := Rect(0.0, 0.0, t.curve[pos].x, t.curve[pos].y);
            && n <= flp.nUnits <= 2 * n - 1 && flp.nUnits + compacted == 2 * n - 1
            && flp.nUnits == n + |Arrange(t, pos, box, compact, ratio).dead|
            && Written(flp.units[..flp.nUnits], n, 0, Arrange(t, pos, box, compact, ratio))
            && TilesBox(flp.units[..flp.nUnits], box)
            && HoldsOrientations(flp.units[..flp.nUnits], t, pos)
            && (compact && ratio >= 0.0 ==> AllPositive(flp.units[..flp.nUnits]))
  {
    hide Arrange;
    hide Units;
    hide Summed;
    hide LeavesWellShaped;
    hide TilesBox;
    hide HoldsOrientations;
    hide AddCurves;
    hide AllPositive;
    hide DistinctUnits;
    hide ReadyToSize;
    hide Untouched;
    hide Written;
    hide TreeNode.Abs;
    hide TreeNode.Valid;
    ghost var t := root.Abs();
    ghost var n := |Units(t)|;
    NodeParts(root);
    CurvesWellShaped(t);
    var p := root.curve.MinAreaPos();
    pos := p;
    ghost var box := Rect(0.0, 0.0, t.curve[pos].x, t.curve[pos].y);
    RootIsReady(root, pos, box, t);
    var deadCount := RecursiveSizing(root, p, 0.0, 0.0, 0, compact, ratio, flp, box, t);
    compacted := (flp.nUnits - 1) / 2 - deadCount;
    flp.nUnits := flp.nUnits - compacted;
    ArrangeCounts(t, pos, box, compact, ratio);
    ghost var u := flp.units[..flp.nUnits];
    WrittenShort(flp.units[..], n, Arrange(t, pos, box, compact, ratio), Units(t));
    WrittenTiles(u, n, t, pos, box, compact, ratio);
  }

  lemma RootIsReady(root: TreeNode, pos: nat, box: Rect, t: Tree)
    requires root.Valid() && t == root.Abs() && Summed(t) && LeavesWellShaped(t) && pos < |t.curve|
    requires box == Rect(0.0, 0.0, t.curve[pos].x, t.curve[pos].y)
    ensures ReadyToSize(root, pos, box, t)
  {
    assert t.curve[pos := Resized(t.curve[pos], box)] == t.curve;
  }

  /** The slots in use are the first n + |dead| ones. */
  lemma WrittenShort(u: seq<Rect>, n: nat, lay: Layout, us: seq<int>)
    requires Written(u, n, 0, lay) && LaysOut(lay.blocks, us) && DistinctUnits(us, n)
    ensures n + |lay.dead| <= |u| && Written(u[..n + |lay.dead|], n, 0, lay)
  {
    assert u[..n + |lay.dead|][n + 0..n + 0 + |lay.dead|] == u[n + 0..n + 0 + |lay.dead|];
  }
}
