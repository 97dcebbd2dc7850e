/** Placing the blocks of a slicing tree and absorbing small dead space, on values: what
    recursive_sizing computes, and that it tiles its box (shape.c). */
module Sizing {
  import opened RealArithmetic
  import opened PolishExpression
  import opened ShapeCurve
  import opened SlicingTree

  datatype Rect = Rect(leftx: real, bottomy: real, width: real, height: real)

  datatype Placement = Placement(unit: int, rect: Rect)

  /** The blocks in leaf order, and the counted dead blocks in the order in which they are counted. */
  datatype Layout = Layout(blocks: seq<Placement>, dead: seq<Rect>)

  /** How a box is divided: the boxes of the two children, and the dead block with whether it is counted. */
  datatype Split = Split(first: Rect, second: Rect, dead: Rect, counted: bool)

  // ---------------------------------------------------------------- dividing a box

  /** Two children of sizes x1 * y1 and x2 * y2 side by side in a box. Both are first stretched to the
      height of the box, then the right one to its width. The dead block lies above the lower child; when
      it is small relative to that child, the child absorbs it instead. */
  function SplitBeside(box: Rect, x1: real, y1: real, x2: real, y2: real, median: real,
                       compact: bool, ratio: real): Split
    requires y1 > 0.0 && y2 > 0.0
  {
    var grow := if box.height > Max(y1, y2) then box.height - Max(y1, y2) else 0.0;
    var h1, h2 := y1 + grow, y2 + grow;
    var w2 := if box.width > x1 + x2 then x2 + (box.width - (x1 + x2)) else x2;
    var absorbed := compact && Abs(h2 - h1) / Min(h1, h2) <= ratio;
    Split(Rect(box.leftx, box.bottomy, x1, if absorbed && h2 >= h1 then h2 else h1),
          Rect(box.leftx + median, box.bottomy, w2, if absorbed && h2 < h1 then h1 else h2),
          Rect(box.leftx + (if h2 >= h1 then 0.0 else x1), box.bottomy + Min(h1, h2),
               if h2 >= h1 then x1 else w2, Abs(h2 - h1)),
          !absorbed)
  }

  /** The same with the second child on top of the first. */
  function SplitStacked(box: Rect, x1: real, y1: real, x2: real, y2: real, median: real,
                        compact: bool, ratio: real): Split
    requires x1 > 0.0 && x2 > 0.0
  {
    var grow := if box.width > Max(x1, x2) then box.width - Max(x1, x2) else 0.0;
    var w1, w2 := x1 + grow, x2 + grow;
    var h2 := if box.height > y1 + y2 then y2 + (box.height - (y1 + y2)) else y2;
    var absorbed := compact && Abs(w2 - w1) / Min(w1, w2) <= ratio;
    Split(Rect(box.leftx, box.bottomy, if absorbed && w2 >= w1 then w2 else w1, y1),
          Rect(box.leftx, box.bottomy + median, if absorbed && w2 < w1 then w1 else w2, h2),
          Rect(box.leftx + Min(w1, w2), box.bottomy + (if w2 >= w1 then 0.0 else y1),
               Abs(w2 - w1), if w2 >= w1 then y1 else h2),
          !absorbed)
  }

  function SplitBox(cut: int, box: Rect, a: Entry, b: Entry, median: real, compact: bool, ratio: real): Split
    requires a.x > 0.0 && a.y > 0.0 && b.x > 0.0 && b.y > 0.0
  {
    if cut == CUT_VERTICAL then SplitBeside(box, a.x, a.y, b.x, b.y, median, compact, ratio)
    else SplitStacked(box, a.x, a.y, b.x, b.y, median, compact, ratio)
  }

  /** The entries of the two children that entry pos of a cut stands for. */
  function LeftEntry(t: Tree, pos: nat): (e: Entry)
    requires t.Cut? && Summed(t) && LeavesWellShaped(t) && pos < |t.curve|
    ensures e.x > 0.0 && e.y > 0.0
  {
    SumIsRealised(t.left.curve, t.right.curve, t.cut, pos);
    CurvesWellShaped(t.left);
    t.left.curve[t.curve[pos].left]
  }

  function RightEntry(t: Tree, pos: nat): (e: Entry)
    requires t.Cut? && Summed(t) && LeavesWellShaped(t) && pos < |t.curve|
    ensures e.x > 0.0 && e.y > 0.0
  {
    SumIsRealised(t.left.curve, t.right.curve, t.cut, pos);
    CurvesWellShaped(t.right);
    t.right.curve[t.curve[pos].right]
  }

  /** How the box given to entry pos of a cut is divided. */
  function SplitAt(t: Tree, pos: nat, box: Rect, compact: bool, ratio: real): Split
    requires t.Cut? && Summed(t) && LeavesWellShaped(t) && pos < |t.curve|
  {
    SplitBox(t.cut, box, LeftEntry(t, pos), RightEntry(t, pos), t.curve[pos].median, compact, ratio)
  }

  // ---------------------------------------------------------------- the layout

  /** The floorplan of entry pos of a tree, stretched to fill the box. */
  function Arrange(t: Tree, pos: nat, box: Rect, compact: bool, ratio: real): Layout
    requires Summed(t) && LeavesWellShaped(t) && pos < |t.curve|
    decreases t
  {
    match t
    case Leaf(unit, _) => Layout([Placement(unit, box)], [])
    case Cut(cut, curve, l, r) =>
      SumIsRealised(l.curve, r.curve, cut, pos);
      var s := SplitAt(t, pos, box, compact, ratio);
      var a := Arrange(l, curve[pos].left, s.first, compact, ratio);
      var b := Arrange(r, curve[pos].right, s.second, compact, ratio);
      Layout(a.blocks + b.blocks, (if s.counted then [s.dead] else []) + a.dead + b.dead)
  }

  // ---------------------------------------------------------------- tiling, point by point

  /** Does the half-open rectangle contain the point? */
  predicate Contains(r: Rect, x: real, y: real) {
    r.leftx <= x < r.leftx + r.width && r.bottomy <= y < r.bottomy + r.height
  }

  function Covers(r: Rect, x: real, y: real): nat {
    if Contains(r, x, y) then 1 else 0
  }

  /** How many of the rectangles contain the point. */
  function Cover(rs: seq<Rect>, x: real, y: real): nat {
    if rs == [] then 0 else Covers(rs[0], x, y) + Cover(rs[1..], x, y)
  }

  function RectArea(r: Rect): real {
    r.width * r.height
  }

  function TotalArea(rs: seq<Rect>): real {
    if rs == [] then 0.0 else RectArea(rs[0]) + TotalArea(rs[1..])
  }

  lemma {:induction false} CoverConcat(p: seq<Rect>, q: seq<Rect>, x: real, y: real)
    ensures Cover(p + q, x, y) == Cover(p, x, y) + Cover(q, x, y)
  {
    if p == [] {
      assert p + q == q;
    } else {
      assert (p + q)[1..] == p[1..] + q;
      CoverConcat(p[1..], q, x, y);
    }
  }

  lemma {:induction false} AreaConcat(p: seq<Rect>, q: seq<Rect>)
    ensures TotalArea(p + q) == TotalArea(p) + TotalArea(q)
  {
    if p == [] {
      assert p + q == q;
    } else {
      assert (p + q)[1..] == p[1..] + q;
      AreaConcat(p[1..], q);
    }
  }

  function Rects(blocks: seq<Placement>): (rs: seq<Rect>)
    ensures |rs| == |blocks|
  {
    seq(|blocks|, i requires 0 <= i < |blocks| => blocks[i].rect)
  }

  /** All tiles of a layout: the blocks, then the dead blocks. */
  function Tiles(lay: Layout): seq<Rect> {
    Rects(lay.blocks) + lay.dead
  }

  /** The rectangles cover every point of the box exactly once and nothing else. */
  ghost predicate Tiling(rs: seq<Rect>, box: Rect) {
    forall x, y :: Cover(rs, x, y) == Covers(box, x, y)
  }

  /** A box at least as large as what it must hold. */
  ghost predicate Holds(box: Rect, e: Entry) {
    box.width >= e.x && box.height >= e.y
  }

  // ---------------------------------------------------------------- what the layout contains

  /** One block for each of the units, in order. */
  ghost predicate LaysOut(blocks: seq<Placement>, us: seq<int>) {
    |blocks| == |us| && forall k :: 0 <= k < |us| ==> blocks[k].unit == us[k]
  }

  lemma LaysOutJoin(p: seq<Placement>, q: seq<Placement>, us: seq<int>, vs: seq<int>)
    requires LaysOut(p, us) && LaysOut(q, vs)
    ensures LaysOut(p + q, us + vs)
  {
  }

  /** One block per leaf, in leaf order, and at most one dead block per cut. */
  lemma {:induction false} ArrangeCounts(t: Tree, pos: nat, box: Rect, compact: bool, ratio: real)
    requires Summed(t) && LeavesWellShaped(t) && pos < |t.curve|
    ensures var lay := Arrange(t, pos, box, compact, ratio);
            && LaysOut(lay.blocks, Units(t))
            && |lay.dead| <= |Units(t)| - 1
    decreases t
  {
    hide SplitAt;
    hide AddCurves;
    hide WellShaped;
    match t
    case Leaf(_, _) =>
    case Cut(cut, curve, l, r) =>
      SumIsRealised(l.curve, r.curve, cut, pos);
      var i, j, s := curve[pos].left, curve[pos].right, SplitAt(t, pos, box, compact, ratio);
      ArrangeCounts(l, i, s.first, compact, ratio);
      ArrangeCounts(r, j, s.second, compact, ratio);
      LaysOutJoin(Arrange(l, i, s.first, compact, ratio).blocks, Arrange(r, j, s.second, compact, ratio).blocks,
                  Units(l), Units(r));
  }

  /** The parts of a divided box: both children and, unless it was absorbed, the dead block. */
  function Parts(s: Split): seq<Rect> {
    [s.first, s.second] + if s.counted then [s.dead] else []
  }

  ghost predicate SplitIsExact(s: Split, box: Rect, a: Entry, b: Entry) {
    && Holds(s.first, a) && Holds(s.second, b)
    && (forall x, y :: Covers(box, x, y)
          == Covers(s.first, x, y) + Covers(s.second, x, y) + (if s.counted then Covers(s.dead, x, y) else 0))
  }

  lemma SplitBesideIsExact(box: Rect, a: Entry, b: Entry, compact: bool, ratio: real)
    requires a.x > 0.0 && a.y > 0.0 && b.x > 0.0 && b.y > 0.0
    requires box.width >= a.x + b.x && box.height >= Max(a.y, b.y)
    ensures SplitIsExact(SplitBeside(box, a.x, a.y, b.x, b.y, a.x, compact, ratio), box, a, b)
  {
  }

  lemma SplitStackedIsExact(box: Rect, a: Entry, b: Entry, compact: bool, ratio: real)
    requires a.x > 0.0 && a.y > 0.0 && b.x > 0.0 && b.y > 0.0
    requires box.height >= a.y + b.y && box.width >= Max(a.x, b.x)
    ensures SplitIsExact(SplitStacked(box, a.x, a.y, b.x, b.y, a.y, compact, ratio), box, a, b)
  {
  }

  /** Dividing the box of an entry is exact: the parts cover it once, and each child gets enough room. */
  lemma SplitAtIsExact(t: Tree, pos: nat, box: Rect, compact: bool, ratio: real)
    requires t.Cut? && Summed(t) && LeavesWellShaped(t) && pos < |t.curve| && Holds(box, t.curve[pos])
    ensures SplitIsExact(SplitAt(t, pos, box, compact, ratio), box, LeftEntry(t, pos), RightEntry(t, pos))
  {
    hide SplitBeside;
    hide SplitStacked;
    hide SplitIsExact;
    hide AddCurves;
    SumIsRealised(t.left.curve, t.right.curve, t.cut, pos);
    var a, b := LeftEntry(t, pos), RightEntry(t, pos);
    if t.cut == CUT_VERTICAL {
      SplitBesideIsExact(box, a, b, compact, ratio);
    } else {
      SplitStackedIsExact(box, a, b, compact, ratio);
    }
  }

  /** The layout that joins two layouts and an optional dead block covers what the three cover. */
  lemma CoverOfJoin(a: Layout, b: Layout, own: seq<Rect>, x: real, y: real)
    ensures Cover(Tiles(Layout(a.blocks + b.blocks, own + a.dead + b.dead)), x, y)
         == Cover(Tiles(a), x, y) + Cover(Tiles(b), x, y) + Cover(own, x, y)
  {
    assert Rects(a.blocks + b.blocks) == Rects(a.blocks) + Rects(b.blocks);
    CoverConcat(Rects(a.blocks) + Rects(b.blocks), own + a.dead + b.dead, x, y);
    CoverConcat(Rects(a.blocks), Rects(b.blocks), x, y);
    CoverConcat(own + a.dead, b.dead, x, y);
    CoverConcat(own, a.dead, x, y);
    CoverConcat(Rects(a.blocks), a.dead, x, y);
    CoverConcat(Rects(b.blocks), b.dead, x, y);
  }

  lemma {:induction false} ArrangeCovers(t: Tree, pos: nat, box: Rect, compact: bool, ratio: real, x: real, y: real)
    requires Summed(t) && LeavesWellShaped(t) && pos < |t.curve| && Holds(box, t.curve[pos])
    ensures Cover(Tiles(Arrange(t, pos, box, compact, ratio)), x, y) == Covers(box, x, y)
    decreases t
  {
    hide SplitAt;
    hide AddCurves;
    hide WellShaped;
    hide Tiles;
    hide Contains;
    match t
    case Leaf(unit, _) =>
      CoverOfBlock(unit, box, x, y);
    case Cut(cut, curve, l, r) =>
      SumIsRealised(l.curve, r.curve, cut, pos);
      SplitAtIsExact(t, pos, box, compact, ratio);
      var s := SplitAt(t, pos, box, compact, ratio);
      var a := Arrange(l, curve[pos].left, s.first, compact, ratio);
      var b := Arrange(r, curve[pos].right, s.second, compact, ratio);
      ArrangeCovers(l, curve[pos].left, s.first, compact, ratio, x, y);
      ArrangeCovers(r, curve[pos].right, s.second, compact, ratio, x, y);
      CoverOfJoin(a, b, if s.counted then [s.dead] else [], x, y);
  }

  lemma CoverOfBlock(unit: int, box: Rect, x: real, y: real)
    ensures Cover(Tiles(Layout([Placement(unit, box)], [])), x, y) == Covers(box, x, y)
  {
    assert Tiles(Layout([Placement(unit, box)], [])) == [box];
  }

  /** The blocks and the counted dead blocks tile the box exactly, whatever space was absorbed. */
  lemma ArrangeTiles(t: Tree, pos: nat, box: Rect, compact: bool, ratio: real)
    requires Summed(t) && LeavesWellShaped(t) && pos < |t.curve| && Holds(box, t.curve[pos])
    ensures Tiling(Tiles(Arrange(t, pos, box, compact, ratio)), box)
  {
    hide Arrange;
    forall x, y ensures Cover(Tiles(Arrange(t, pos, box, compact, ratio)), x, y) == Covers(box, x, y) {
      ArrangeCovers(t, pos, box, compact, ratio, x, y);
    }
  }

  /** The orientation each leaf takes, in leaf order. */
  function Orientations(t: Tree, pos: nat): (es: seq<Entry>)
    requires Summed(t) && pos < |t.curve|
    ensures |es| == |Units(t)|
    decreases t
  {
    match t
    case Leaf(_, curve) => [curve[pos]]
    case Cut(cut, curve, l, r) =>
      SumIsRealised(l.curve, r.curve, cut, pos);
      Orientations(l, curve[pos].left) + Orientations(r, curve[pos].right)
  }

  ghost predicate EachHolds(blocks: seq<Placement>, es: seq<Entry>) {
    |blocks| == |es| && forall k :: 0 <= k < |blocks| ==> Holds(blocks[k].rect, es[k])
  }

  lemma OneHolds(unit: int, box: Rect, e: Entry)
    requires Holds(box, e)
    ensures EachHolds([Placement(unit, box)], [e])
  {
  }

  lemma EachHoldsJoin(p: seq<Placement>, q: seq<Placement>, es: seq<Entry>, fs: seq<Entry>)
    requires EachHolds(p, es) && EachHolds(q, fs)
    ensures EachHolds(p + q, es + fs)
  {
  }

  /** Every block is at least as wide and as tall as the orientation chosen for it. */
  lemma {:induction false} BlocksHoldOrientations(t: Tree, pos: nat, box: Rect, compact: bool, ratio: real)
    requires Summed(t) && LeavesWellShaped(t) && pos < |t.curve| && Holds(box, t.curve[pos])
    ensures var lay := Arrange(t, pos, box, compact, ratio);
            && |lay.blocks| == |Units(t)|
            && EachHolds(lay.blocks, Orientations(t, pos))
    decreases t
  {
    hide SplitAt;
    hide AddCurves;
    hide WellShaped;
    hide Holds;
    hide Covers;
    hide EachHolds;
    match t
    case Leaf(unit, curve) =>
      OneHolds(unit, box, curve[pos]);
    case Cut(cut, curve, l, r) =>
      SumIsRealised(l.curve, r.curve, cut, pos);
      SplitAtIsExact(t, pos, box, compact, ratio);
      var i, j, s := curve[pos].left, curve[pos].right, SplitAt(t, pos, box, compact, ratio);
      BlocksHoldOrientations(l, i, s.first, compact, ratio);
      BlocksHoldOrientations(r, j, s.second, compact, ratio);
      EachHoldsJoin(Arrange(l, i, s.first, compact, ratio).blocks, Arrange(r, j, s.second, compact, ratio).blocks,
                    Orientations(l, i), Orientations(r, j));
  }

  // ---------------------------------------------------------------- areas

  /** Dividing a box keeps its area, and gives parts of positive size when zero-sized dead space is
      always absorbed. */
  lemma SplitBesideArea(box: Rect, a: Entry, b: Entry, compact: bool, ratio: real)
    requires a.x > 0.0 && a.y > 0.0 && b.x > 0.0 && b.y > 0.0
    requires box.width >= a.x + b.x && box.height >= Max(a.y, b.y)
    ensures var s := SplitBeside(box, a.x, a.y, b.x, b.y, a.x, compact, ratio);
            && TotalArea(Parts(s)) == RectArea(box)
            && (compact && ratio >= 0.0 ==> AllPositive(Parts(s)))
  {
    var s := SplitBeside(box, a.x, a.y, b.x, b.y, a.x, compact, ratio);
    AreaOfParts(s);
    Distribute(s.first.width, s.second.width, box.height);
    if s.counted {
      if s.first.height < box.height {
        Distribute(s.first.height, s.dead.height, s.first.width);
      } else {
        Distribute(s.second.height, s.dead.height, s.second.width);
      }
    }
  }

  lemma SplitStackedArea(box: Rect, a: Entry, b: Entry, compact: bool, ratio: real)
    requires a.x > 0.0 && a.y > 0.0 && b.x > 0.0 && b.y > 0.0
    requires box.height >= a.y + b.y && box.width >= Max(a.x, b.x)
    ensures var s := SplitStacked(box, a.x, a.y, b.x, b.y, a.y, compact, ratio);
            && TotalArea(Parts(s)) == RectArea(box)
            && (compact && ratio >= 0.0 ==> AllPositive(Parts(s)))
  {
    var s := SplitStacked(box, a.x, a.y, b.x, b.y, a.y, compact, ratio);
    AreaOfParts(s);
    Distribute(s.first.height, s.second.height, box.width);
    if s.counted {
      if s.first.width < box.width {
        Distribute(s.first.width, s.dead.width, s.first.height);
      } else {
        Distribute(s.second.width, s.dead.width, s.second.height);
      }
    }
  }

  lemma AreaOfParts(s: Split)
    ensures TotalArea(Parts(s))
         == RectArea(s.first) + RectArea(s.second) + (if s.counted then RectArea(s.dead) else 0.0)
  {
    AreaConcat([s.first], [s.second]);
    AreaConcat([s.first] + [s.second], if s.counted then [s.dead] else []);
    AreaOfOne(s.first);
    AreaOfOne(s.second);
    AreaOfOne(s.dead);
    assert Parts(s) == [s.first] + [s.second] + if s.counted then [s.dead] else [];
  }

  ghost predicate AllPositive(rs: seq<Rect>) {
    forall i :: 0 <= i < |rs| ==> rs[i].width > 0.0 && rs[i].height > 0.0
  }

  lemma SplitAtArea(t: Tree, pos: nat, box: Rect, compact: bool, ratio: real)
    requires t.Cut? && Summed(t) && LeavesWellShaped(t) && pos < |t.curve| && Holds(box, t.curve[pos])
    ensures var s := SplitAt(t, pos, box, compact, ratio);
            && TotalArea(Parts(s)) == RectArea(box)
            && (compact && ratio >= 0.0 ==> AllPositive(Parts(s)))
  {
    hide SplitBeside;
    hide SplitStacked;
    hide AddCurves;
    hide TotalArea;
    hide Parts;
    hide AllPositive;
    SumIsRealised(t.left.curve, t.right.curve, t.cut, pos);
    var a, b := LeftEntry(t, pos), RightEntry(t, pos);
    if t.cut == CUT_VERTICAL {
      SplitBesideArea(box, a, b, compact, ratio);
    } else {
      SplitStackedArea(box, a, b, compact, ratio);
    }
  }

  lemma AreaOfJoin(a: Layout, b: Layout, own: seq<Rect>)
    ensures TotalArea(Tiles(Layout(a.blocks + b.blocks, own + a.dead + b.dead)))
         == TotalArea(Tiles(a)) + TotalArea(Tiles(b)) + TotalArea(own)
  {
    assert Rects(a.blocks + b.blocks) == Rects(a.blocks) + Rects(b.blocks);
    AreaConcat(Rects(a.blocks) + Rects(b.blocks), own + a.dead + b.dead);
    AreaConcat(Rects(a.blocks), Rects(b.blocks));
    AreaConcat(own + a.dead, b.dead);
    AreaConcat(own, a.dead);
    AreaConcat(Rects(a.blocks), a.dead);
    AreaConcat(Rects(b.blocks), b.dead);
  }

  /** The areas of the blocks and the counted dead blocks add up to the area of the box. */
  lemma {:induction false} ArrangeKeepsArea(t: Tree, pos: nat, box: Rect, compact: bool, ratio: real)
    requires Summed(t) && LeavesWellShaped(t) && pos < |t.curve| && Holds(box, t.curve[pos])
    ensures TotalArea(Tiles(Arrange(t, pos, box, compact, ratio))) == RectArea(box)
    decreases t
  {
    hide SplitAt;
    hide AddCurves;
    hide WellShaped;
    hide Tiles;
    hide TotalArea;
    hide AllPositive;
    hide RectArea;
    match t
    case Leaf(unit, _) =>
      AreaOfBlock(unit, box);
    case Cut(cut, curve, l, r) =>
      SumIsRealised(l.curve, r.curve, cut, pos);
      SplitAtIsExact(t, pos, box, compact, ratio);
      SplitAtArea(t, pos, box, compact, ratio);
      var s := SplitAt(t, pos, box, compact, ratio);
      var a := Arrange(l, curve[pos].left, s.first, compact, ratio);
      var b := Arrange(r, curve[pos].right, s.second, compact, ratio);
      ArrangeKeepsArea(l, curve[pos].left, s.first, compact, ratio);
      ArrangeKeepsArea(r, curve[pos].right, s.second, compact, ratio);
      AreaOfJoin(a, b, if s.counted then [s.dead] else []);
      AreaOfParts(s);
      AreaOfOne(s.dead);
  }

  lemma AreaOfOne(r: Rect)
    ensures TotalArea([r]) == RectArea(r) && TotalArea([]) == 0.0
  {
    assert [r][1..] == [];
  }

  lemma AreaOfBlock(unit: int, box: Rect)
    ensures TotalArea(Tiles(Layout([Placement(unit, box)], []))) == RectArea(box)
  {
    assert Tiles(Layout([Placement(unit, box)], [])) == [box];
    AreaOfOne(box);
  }

  /** With compaction on, every tile has positive size: no empty dead block is ever counted. */
  lemma {:induction false} ArrangeIsPositive(t: Tree, pos: nat, box: Rect, ratio: real)
    requires Summed(t) && LeavesWellShaped(t) && pos < |t.curve| && Holds(box, t.curve[pos])
    requires ratio >= 0.0
    ensures AllPositive(Tiles(Arrange(t, pos, box, true, ratio)))
    decreases t
  {
    hide SplitAt;
    hide AddCurves;
    CurvesWellShaped(t);
    match t
    case Leaf(_, _) =>
    case Cut(cut, curve, l, r) =>
      SumIsRealised(l.curve, r.curve, cut, pos);
      SplitAtIsExact(t, pos, box, true, ratio);
      SplitAtArea(t, pos, box, true, ratio);
      var s := SplitAt(t, pos, box, true, ratio);
      var a := Arrange(l, curve[pos].left, s.first, true, ratio);
      var b := Arrange(r, curve[pos].right, s.second, true, ratio);
      ArrangeIsPositive(l, curve[pos].left, s.first, ratio);
      ArrangeIsPositive(r, curve[pos].right, s.second, ratio);
      PositiveJoin(a, b, s);
  }

  lemma PositiveJoin(a: Layout, b: Layout, s: Split)
    requires AllPositive(Tiles(a)) && AllPositive(Tiles(b)) && AllPositive(Parts(s))
    ensures AllPositive(Tiles(Layout(a.blocks + b.blocks, (if s.counted then [s.dead] else []) + a.dead + b.dead)))
  {
    var own := if s.counted then [s.dead] else [];
    var p, q, o := Tiles(a), Tiles(b), Parts(s);
    var all := Tiles(Layout(a.blocks + b.blocks, own + a.dead + b.dead));
    forall i | 0 <= i < |all| ensures all[i].width > 0.0 && all[i].height > 0.0 {
      assert all[i] in p || all[i] in q || all[i] in o by {
        assert all == Rects(a.blocks) + Rects(b.blocks) + own + a.dead + b.dead;
        assert p == Rects(a.blocks) + a.dead && q == Rects(b.blocks) + b.dead;
        assert s.counted ==> o[2] == s.dead;
      }
    }
  }
}
